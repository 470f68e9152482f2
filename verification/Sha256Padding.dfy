/**
  The block padder of SHA-256 and the trace of its instances. Each instance takes 32 cells: 16 words of
  message, the input state and the output state, which is also the next instance's input state.
*/
module Sha256Padding {
  import opened Arithmetic
  import opened Octets
  import opened ByteStreams
  import opened ByteCopies
  import Sha256

  type Word = Sha256.Word
  type State = Sha256.State

  const CHUNK_BYTES: nat := 64
  const CHUNK_FELTS: nat := 16
  const STATE_FELTS: nat := 8
  const INSTANCE_SIZE: nat := CHUNK_FELTS + 2 * STATE_FELTS
  // messages below 2^29 bytes have a bit length of one word
  const MESSAGE_LIMIT: nat := 0x2000_0000

  // ------------------------------------------------------------------------
  // Padding, section 5.1.1 of FIPS 180-4
  // ------------------------------------------------------------------------

  /** The number of zero bytes between the marker byte and the length. */
  function ZeroCount(size: nat): nat {
    (119 - size % 64) % 64
  }

  /** The padded rest of a message of `total` bytes: a one bit, zeros, and the length in bits as 64 bits. */
  function PaddedRest(rest: seq<Byte>, total: nat): seq<Byte> {
    rest + [0x80] + ZeroBytes(ZeroCount(|rest|)) + Digits(8 * total, 8)
  }

  function PaddedMessage(message: seq<Byte>): seq<Byte> {
    PaddedRest(message, |message|)
  }

  /** The words of bytes. */
  function Words(b: seq<Byte>): (w: seq<Word>)
    ensures |w| == (|b| + 3) / 4
  {
    PackedFits(b);
    Packed(b)
  }

  lemma {:induction false} PackedFits(b: seq<Byte>)
    ensures |Packed(b)| == (|b| + 3) / 4 && forall i :: 0 <= i < |Packed(b)| ==> Packed(b)[i] < UINT32
    decreases |b|
  {
    hide Value;
    Powers();
    if b != [] && |b| <= 4 {
      ValueFits(b + ZeroBytes(4 - |b|));
    } else if |b| > 4 {
      ValueFits(b[..4]);
      PackedFits(b[4..]);
    }
  }

  /** The words of bytes that end on a word boundary, and of what follows. */
  lemma {:induction false} WordsAppend(b: seq<Byte>, c: seq<Byte>)
    requires |b| % 4 == 0
    ensures Words(b + c) == Words(b) + Words(c)
    decreases |b|
  {
    hide Value;
    if b == [] {
      assert b + c == c;
    } else {
      assert (b + c)[..4] == b[..4] && (b + c)[4..] == b[4..] + c;
      WordsAppend(b[4..], c);
      FirstWordOf(b);
      FirstWordOf(b + c);
    }
  }

  lemma FirstWordOf(b: seq<Byte>)
    requires |b| >= 4
    ensures Packed(b) == [Value(b[..4])] + Packed(b[4..])
  {
    if |b| == 4 {
      assert b + ZeroBytes(0) == b && b[..4] == b && b[4..] == [];
    }
  }

  // ------------------------------------------------------------------------
  // The trace of the instances
  // ------------------------------------------------------------------------

  function StateWords(s: State): (w: seq<Word>)
    ensures |w| == STATE_FELTS
  {
    [s.a, s.b, s.c, s.d, s.e, s.f, s.g, s.h]
  }

  function StateOf(w: seq<Word>): State
    requires |w| == STATE_FELTS
  {
    Sha256.State(w[0], w[1], w[2], w[3], w[4], w[5], w[6], w[7])
  }

  /** One instance: its message block and its states. */
  function Instance(block: seq<Word>, s: State): (cells: seq<Word>)
    requires |block| == CHUNK_FELTS
    ensures |cells| == INSTANCE_SIZE
  {
    block + StateWords(s) + StateWords(Sha256.Compress(s, block))
  }

  /** The instances of `n` blocks; each starts with the state that the one before ends with. */
  function Trace(words: seq<Word>, n: nat, s: State): (cells: seq<Word>)
    requires |words| == CHUNK_FELTS * n
    ensures |cells| == INSTANCE_SIZE * n
    decreases n
  {
    if n == 0 then [] else
    var block := words[..CHUNK_FELTS];
    Instance(block, s) + Trace(words[CHUNK_FELTS..], n - 1, Sha256.Compress(s, block))
  }

  /** The hash of `n` blocks. */
  function Digest(words: seq<Word>, n: nat, s: State): State
    requires |words| == CHUNK_FELTS * n
    decreases n
  {
    if n == 0 then s else Digest(words[CHUNK_FELTS..], n - 1, Sha256.Compress(s, words[..CHUNK_FELTS]))
  }

  const IV: State := Sha256.State(0x6A09E667, 0xBB67AE85, 0x3C6EF372, 0xA54FF53A,
                                  0x510E527F, 0x9B05688C, 0x1F83D9AB, 0x5BE0CD19)

  // ------------------------------------------------------------------------
  // Writing one block's message words
  // ------------------------------------------------------------------------

  /** What a block's words are: the message bytes with the marker byte after them, or zeros only. */
  function InputBytes(rest: seq<Byte>, words: nat, padChunk: bool): seq<Byte>
    requires |rest| <= 4 * words
  {
    if |rest| == 4 * words then rest
    else if padChunk then rest + ZeroBytes(4 * words - |rest|)
    else rest + [0x80] + ZeroBytes(4 * words - |rest| - 1)
  }

  lemma NoInputBytes(words: nat, padChunk: bool)
    requires words > 0
    ensures |Words(InputBytes([], words, padChunk))| == words
    ensures forall i :: 0 <= i < words ==>
      Words(InputBytes([], words, padChunk))[i] == if i == 0 && !padChunk then 0x8000_0000 else 0
  {
    hide Value;
    var b := InputBytes([], words, padChunk);
    ZeroWords(words - 1);
    assert b[4..] == ZeroBytes(4 * (words - 1));
    FirstWordOf(b);
    if padChunk {
      assert b[..4] == ZeroBytes(4);
      ZeroValue(4);
    } else {
      assert b[..4] == [0x80] + ZeroBytes(3);
      ValueAppend([0x80], ZeroBytes(3));
      ZeroValue(3);
      OneByte(0x80);
      Powers();
    }
  }

  lemma {:induction false} ZeroWords(words: nat)
    ensures Words(ZeroBytes(4 * words)) == seq(words, _ => 0)
  {
    hide Value;
    if words > 0 {
      var b := ZeroBytes(4 * words);
      FirstWordOf(b);
      assert b[..4] == ZeroBytes(4) && b[4..] == ZeroBytes(4 * (words - 1));
      ZeroValue(4);
      ZeroWords(words - 1);
    }
  }

  lemma PartialValue(v: nat, m: nat)
    ensures v * (256 * m) + m * 0x80 == (v * 256 + 0x80) * m
  {
  }

  /** A last word with one to three bytes of message, and the marker byte behind them. */
  lemma PartialWord(rest: seq<Byte>)
    requires 0 < |rest| < 4
    ensures Packed(rest)[0] + Bytes(3 - |rest|) * 0x80 == Value(rest + [0x80] + ZeroBytes(3 - |rest|)) < UINT32
  {
    hide Bytes, Value, Packed;
    var k := 3 - |rest|;
    ShortWord(rest);
    PartialSum(rest, k);
    Powers();
    ValueFits(rest + [0x80] + ZeroBytes(k));
  }

  lemma ShortWord(rest: seq<Byte>)
    requires 0 < |rest| < 4
    ensures |Packed(rest)| == 1 && Packed(rest)[0] == Value(rest + ZeroBytes(4 - |rest|))
  {
  }

  lemma PartialSum(rest: seq<Byte>, k: nat)
    ensures Value(rest + ZeroBytes(k + 1)) + Bytes(k) * 0x80 == Value(rest + [0x80] + ZeroBytes(k))
  {
    hide Bytes, Value, ZeroBytes;
    ValueAppend(rest, ZeroBytes(k + 1));
    ZeroValue(k + 1);
    Bytes256(k);
    ValueLast(rest, 0x80);
    ValueAppend(rest + [0x80], ZeroBytes(k));
    ZeroValue(k);
    PartialValue(Value(rest), Bytes(k));
  }

  method Memset(tape: array<Word>, dst: nat, n: nat)
    requires dst + n <= tape.Length
    modifies tape
    ensures forall i :: 0 <= i < tape.Length ==> tape[i] == if dst <= i < dst + n then 0 else old(tape[i])
  {
    forall i | dst <= i < dst + n {
      tape[i] := 0;
    }
  }

  /** `_sha256_input`: fill `nWords` cells from `ptr` on. */
  method Sha256Input(tape: array<Word>, ptr: nat, input: seq<Word>, nBytes: nat, nWords: nat, padChunk: bool,
                     ghost rest: seq<Byte>) returns (next: nat)
    requires nBytes == |rest| <= 4 * nWords && ptr + nWords <= tape.Length
    requires Words(rest) <= input && (padChunk ==> nBytes % 4 == 0)
    modifies tape
    ensures next == ptr + nWords
    ensures tape[ptr..next] == Words(InputBytes(rest, nWords, padChunk))
    ensures forall i :: 0 <= i < tape.Length && !(ptr <= i < next) ==> tape[i] == old(tape[i])
    decreases nBytes
  {
    hide Words, InputBytes, Bytes;
    if nBytes >= 4 {
      InputSteps(rest, nWords, padChunk);
      tape[ptr] := input[0];
      next := Sha256Input(tape, ptr + 1, input[1..], nBytes - 4, nWords - 1, padChunk, rest[4..]);
      FirstCell(tape[..], ptr, next);
      return;
    }
    next := ptr + nWords;
    if nWords == 0 {
      NoWords(padChunk);
      assert tape[ptr..next] == [];
      return;
    }
    ghost var words := Words(InputBytes(rest, nWords, padChunk));
    if nBytes == 0 {
      NoInputBytes(nWords, padChunk);
      tape[ptr] := if padChunk then 0 else 0x8000_0000;
    } else {
      LastWords(rest, nWords);
      tape[ptr] := input[0] + Bytes(3 - nBytes) * 0x80;
    }
    Memset(tape, ptr + 1, nWords - 1);
    assert |words| == nWords && words[0] == tape[ptr];
    assert forall i :: 0 < i < nWords ==> words[i] == 0;
    IsSlice(tape[..], ptr, words);
  }

  lemma FirstCell(s: seq<Word>, i: nat, j: nat)
    requires i < j <= |s|
    ensures s[i..j] == [s[i]] + s[i + 1..j]
  {
  }

  lemma IsSlice(s: seq<Word>, i: nat, w: seq<Word>)
    requires i + |w| <= |s| && forall k :: 0 <= k < |w| ==> s[i + k] == w[k]
    ensures s[i..i + |w|] == w
  {
  }

  lemma NoWords(padChunk: bool)
    ensures Words(InputBytes([], 0, padChunk)) == []
  {
  }

  lemma InputSteps(rest: seq<Byte>, nWords: nat, padChunk: bool)
    requires 4 <= |rest| <= 4 * nWords
    ensures |Words(rest)| > 0
    ensures Words(InputBytes(rest, nWords, padChunk))
            == [Words(rest)[0]] + Words(InputBytes(rest[4..], nWords - 1, padChunk))
    ensures Words(rest) == [Words(rest)[0]] + Words(rest[4..])
  {
    hide Value;
    var b := InputBytes(rest, nWords, padChunk);
    assert b[..4] == rest[..4] && b[4..] == InputBytes(rest[4..], nWords - 1, padChunk);
    FirstWordOf(b);
    FirstWordOf(rest);
  }

  lemma LastWords(rest: seq<Byte>, nWords: nat)
    requires 0 < |rest| < 4 && nWords > 0
    ensures |Words(rest)| == 1 && |Words(InputBytes(rest, nWords, false))| == nWords
    ensures Words(rest)[0] + Bytes(3 - |rest|) * 0x80 == Words(InputBytes(rest, nWords, false))[0]
    ensures forall i :: 1 <= i < nWords ==> Words(InputBytes(rest, nWords, false))[i] == 0
  {
    hide Value, Bytes;
    var b := InputBytes(rest, nWords, false);
    PartialWord(rest);
    assert b[..4] == rest + [0x80] + ZeroBytes(3 - |rest|);
    assert b[4..] == ZeroBytes(4 * (nWords - 1));
    FirstWordOf(b);
    ZeroWords(nWords - 1);
  }

  // ------------------------------------------------------------------------
  // Block after block
  // ------------------------------------------------------------------------

  /** The bytes still to be written: the padded rest, or only the zeros and the length of a last block. */
  function RestBytes(rest: seq<Byte>, total: nat): seq<Byte> {
    if rest == [] && total % 64 >= 56 then ZeroBytes(56) + Digits(8 * total, 8) else PaddedRest(rest, total)
  }

  /** The rest of a message of `total` bytes that whole blocks have been taken from. */
  predicate RestOf(rest: seq<Byte>, total: nat) {
    total < MESSAGE_LIMIT && (|rest| % 64 == total % 64 || (rest == [] && total % 64 >= 56))
  }

  function BlockCount(rest: seq<Byte>): nat {
    (|rest| + 9 + 63) / 64
  }

  lemma RestSize(rest: seq<Byte>, total: nat)
    requires RestOf(rest, total)
    ensures |RestBytes(rest, total)| == 64 * BlockCount(rest)
  {
    hide ZeroCount, Digits, ZeroBytes;
    WholeBlocks(|rest|);
  }

  /** The zeros fill up the last block. */
  lemma WholeBlocks(size: nat)
    ensures size + 9 + ZeroCount(size) == 64 * ((size + 9 + 63) / 64)
  {
    var q, r := size / 64, size % 64;
    assert size == 64 * q + r;
    if r <= 55 {
      QuotientIs(119 - r, 64, 1, 55 - r);
      QuotientIs(size + 72, 64, q + 1, r + 8);
    } else {
      QuotientIs(119 - r, 64, 0, 119 - r);
      QuotientIs(size + 72, 64, q + 2, r - 56);
    }
  }

  /** The words of the blocks still to be written. */
  function RestWords(rest: seq<Byte>, total: nat): (w: seq<Word>)
    requires RestOf(rest, total)
    ensures |w| == CHUNK_FELTS * BlockCount(rest)
  {
    RestSize(rest, total);
    Words(RestBytes(rest, total))
  }

  lemma LengthWords(total: nat)
    requires total < MESSAGE_LIMIT
    ensures Words(Digits(8 * total, 8)) == [0, total * 8]
  {
    hide Digits, Value, Bytes;
    Powers();
    var low: seq<Byte> := Digits(8 * total, 4);
    DigitsSplit4(8 * total);
    ValueOfDigits(8 * total, 4);
    FirstWordOf(ZeroBytes(4) + low);
    assert (ZeroBytes(4) + low)[..4] == ZeroBytes(4) && (ZeroBytes(4) + low)[4..] == low;
    ZeroValue(4);
    FirstWordOf(low);
    assert low[..4] == low && low[4..] == [];
  }

  lemma DigitsSplit4(x: nat)
    requires x < UINT32
    ensures Digits(x, 8) == ZeroBytes(4) + Digits(x, 4)
  {
    hide Value, Bytes;
    Powers();
    var b := ZeroBytes(4) + Digits(x, 4);
    ValueAppend(ZeroBytes(4), Digits(x, 4));
    ValueOfDigits(x, 4);
    ZeroValue(4);
    assert 0 * Bytes(4) == 0;
    DigitsOfValue(b);
  }

  /** The last block. */
  lemma LastBlock(rest: seq<Byte>, total: nat)
    requires RestOf(rest, total) && |rest| <= 55
    ensures var padChunk := rest == [] && total % 64 >= 56;
      RestWords(rest, total) == Words(InputBytes(rest, 14, padChunk)) + [0, total * 8] && BlockCount(rest) == 1
  {
    hide Words, Digits;
    var padChunk := rest == [] && total % 64 >= 56;
    var front, last := InputBytes(rest, 14, padChunk), Digits(8 * total, 8);
    assert RestBytes(rest, total) == front + last;
    WordsAppend(front, last);
    LengthWords(total);
  }

  /** A block that has room for the marker byte, but not for the length. */
  lemma MarkerBlock(rest: seq<Byte>, total: nat)
    requires RestOf(rest, total) && 56 <= |rest| < 64
    ensures RestOf([], total) && BlockCount(rest) == 2
    ensures RestWords(rest, total) == Words(InputBytes(rest, 16, false)) + RestWords([], total)
  {
    hide Words, Digits;
    var front := InputBytes(rest, 16, false);
    assert RestBytes(rest, total) == front + RestBytes([], total) by {
      assert ZeroBytes(ZeroCount(|rest|)) == ZeroBytes(63 - |rest|) + ZeroBytes(56);
    }
    WordsAppend(front, RestBytes([], total));
  }

  /** A block full of message. */
  lemma MessageBlock(rest: seq<Byte>, total: nat)
    requires RestOf(rest, total) && |rest| >= 64
    ensures RestOf(rest[64..], total) && BlockCount(rest) == BlockCount(rest[64..]) + 1
    ensures RestWords(rest, total) == Words(InputBytes(rest[..64], 16, false)) + RestWords(rest[64..], total)
    ensures Words(rest) == Words(rest[..64]) + Words(rest[64..])
  {
    hide Words, RestBytes;
    assert rest == rest[..64] + rest[64..];
    RestAfterBlock(rest, total);
    WordsAppend(rest[..64], RestBytes(rest[64..], total));
    WordsAppend(rest[..64], rest[64..]);
  }

  lemma OneBlockLess(size: nat)
    requires size >= 64
    ensures (size - 64) % 64 == size % 64 && ZeroCount(size) == ZeroCount(size - 64)
  {
    QuotientIs(size - 64, 64, size / 64 - 1, size % 64);
  }

  lemma RestAfterBlock(rest: seq<Byte>, total: nat)
    requires RestOf(rest, total) && |rest| >= 64
    ensures RestOf(rest[64..], total) && RestBytes(rest, total) == rest[..64] + RestBytes(rest[64..], total)
  {
    hide Digits, ZeroBytes, ZeroCount;
    OneBlockLess(|rest|);
    var more := rest[64..];
    assert rest == rest[..64] + more;
    assert PaddedRest(rest, total) == rest[..64] + PaddedRest(more, total);
  }

  lemma TraceStep(block: seq<Word>, more: seq<Word>, n: nat, s: State)
    requires |block| == CHUNK_FELTS && |more| == CHUNK_FELTS * n
    ensures Trace(block + more, n + 1, s) == Instance(block, s) + Trace(more, n, Sha256.Compress(s, block))
  {
    assert (block + more)[..CHUNK_FELTS] == block && (block + more)[CHUNK_FELTS..] == more;
  }

  lemma TraceOfOne(block: seq<Word>, s: State)
    requires |block| == CHUNK_FELTS
    ensures Trace(block, 1, s) == Instance(block, s)
  {
    TraceStep(block, [], 0, s);
    assert block + [] == block;
  }

  /** `_sha256_chunk`: the output state behind the message and the input state at `ptr`. */
  method Sha256Chunk(tape: array<Word>, ptr: nat)
    requires ptr + INSTANCE_SIZE <= tape.Length
    modifies tape
    ensures forall i :: 0 <= i < tape.Length && !(ptr + 24 <= i < ptr + 32) ==> tape[i] == old(tape[i])
    ensures var block, s := old(tape[ptr..ptr + 16]), StateOf(old(tape[ptr + 16..ptr + 24]));
      tape[ptr + 24..ptr + 32] == StateWords(Sha256.Compress(s, block))
  {
    var s := StateOf(tape[ptr + 16..ptr + 24]);
    var output := StateWords(Sha256.Compress(s, tape[ptr..ptr + 16]));
    CopyWords(tape, ptr + 24, output);
  }

  method CopyWords(tape: array<Word>, ptr: nat, words: seq<Word>)
    requires ptr + |words| <= tape.Length
    modifies tape
    ensures tape[ptr..ptr + |words|] == words
    ensures forall i :: 0 <= i < tape.Length && !(ptr <= i < ptr + |words|) ==> tape[i] == old(tape[i])
  {
    forall i | ptr <= i < ptr + |words| {
      tape[i] := words[i - ptr];
    }
  }

  lemma StateRoundTrip(s: State)
    ensures StateOf(StateWords(s)) == s
  {
  }

  lemma InputWordCount(rest: seq<Byte>, words: nat, padChunk: bool)
    requires |rest| <= 4 * words
    ensures |Words(InputBytes(rest, words, padChunk))| == words
  {
  }

  /** A chunk that is not the last: its instance, and the output state copied to the next instance's input. */
  method MiddleChunk(tape: array<Word>, ptr: nat, data: seq<Word>, nBytes: nat, ghost rest: seq<Byte>, ghost s: State)
    requires nBytes == |rest| <= 64 && Words(rest) <= data && ptr + 2 * INSTANCE_SIZE <= tape.Length
    requires tape[ptr + 16..ptr + 24] == StateWords(s)
    modifies tape
    ensures |Words(InputBytes(rest, 16, false))| == CHUNK_FELTS
    ensures tape[ptr..ptr + 32] == Instance(Words(InputBytes(rest, 16, false)), s)
    ensures tape[ptr + 48..ptr + 56] == StateWords(Sha256.Compress(s, Words(InputBytes(rest, 16, false))))
    ensures forall i :: 0 <= i < tape.Length && !(ptr <= i < ptr + 64) ==> tape[i] == old(tape[i])
  {
    hide Words, InputBytes, StateWords, StateOf, Sha256.Compress;
    InputWordCount(rest, 16, false);
    ghost var block := Words(InputBytes(rest, 16, false));
    var next := Sha256Input(tape, ptr, data, nBytes, 16, false, rest);
    assert tape[ptr + 16..ptr + 24] == StateWords(s);
    assert tape[ptr..ptr + 16] == block;
    StateRoundTrip(s);
    Sha256Chunk(tape, ptr);
    assert tape[ptr..ptr + 16] == block && tape[ptr + 16..ptr + 24] == StateWords(s);
    ghost var output := Sha256.Compress(s, block);
    ThreeSlices(tape[..], ptr, ptr + 16, ptr + 24, ptr + 32);
    ghost var cells := tape[..];
    CopyWords(tape, ptr + 48, tape[ptr + 24..ptr + 32]);
    SameSlice(tape[..], cells, ptr, ptr + 32);
  }

  lemma SameSlice(s: seq<Word>, t: seq<Word>, i: nat, j: nat)
    requires i <= j <= |s| == |t| && forall k :: i <= k < j ==> s[k] == t[k]
    ensures s[i..j] == t[i..j]
  {
  }

  /** The last chunk, with the length of the message in its last two words. */
  method LastChunk(tape: array<Word>, ptr: nat, data: seq<Word>, nBytes: nat, totalBytes: nat, padChunk: bool,
                   ghost rest: seq<Byte>, ghost s: State)
    requires nBytes == |rest| <= 55 && Words(rest) <= data && ptr + INSTANCE_SIZE <= tape.Length
    requires totalBytes < MESSAGE_LIMIT && (padChunk ==> rest == [])
    requires tape[ptr + 16..ptr + 24] == StateWords(s)
    modifies tape
    ensures |Words(InputBytes(rest, 14, padChunk))| == 14
    ensures tape[ptr..ptr + 32] == Instance(Words(InputBytes(rest, 14, padChunk)) + [0, totalBytes * 8], s)
    ensures forall i :: 0 <= i < tape.Length && !(ptr <= i < ptr + 32) ==> tape[i] == old(tape[i])
  {
    hide Words, InputBytes, StateWords, StateOf, Sha256.Compress;
    InputWordCount(rest, 14, padChunk);
    ghost var front := Words(InputBytes(rest, 14, padChunk));
    var next := Sha256Input(tape, ptr, data, nBytes, 14, padChunk, rest);
    ghost var cells := tape[..];
    tape[next] := 0;
    tape[next + 1] := totalBytes * 8;
    SameSlice(tape[..], cells, ptr, ptr + 14);
    TwoCells(tape[..], ptr, ptr + 14);
    ghost var filled := tape[..];
    assert filled[ptr..ptr + 16] == front + [0, totalBytes * 8];
    assert filled[ptr + 16..ptr + 24] == StateWords(s);
    StateRoundTrip(s);
    Sha256Chunk(tape, ptr);
    SameSlice(tape[..], filled, ptr, ptr + 16);
    SameSlice(tape[..], filled, ptr + 16, ptr + 24);
    ThreeSlices(tape[..], ptr, ptr + 16, ptr + 24, ptr + 32);
  }

  lemma TwoCells(s: seq<Word>, i: nat, j: nat)
    requires i <= j && j + 2 <= |s|
    ensures s[i..j + 2] == s[i..j] + [s[j], s[j + 1]]
  {
  }

  lemma ThreeSlices(s: seq<Word>, i: nat, j: nat, k: nat, l: nat)
    requires i <= j <= k <= l <= |s|
    ensures s[i..l] == s[i..j] + s[j..k] + s[k..l]
  {
  }

  /** `is_le` on small numbers. */
  function IsLe(a: nat, b: nat): int {
    if a <= b then 1 else 0
  }

  /** The zeros-only block is recognised by the rest being empty although the message did not fill its block. */
  lemma ZeroChunk(rest: seq<Byte>, total: nat)
    requires RestOf(rest, total)
    ensures IsLe(|rest|, 0) - IsLe(total, 0) - IsLe(total % 64, 0) == 1 <==> rest == [] && total % 64 >= 56
  {
  }

  /** Cells that follow on cells that are kept. */
  lemma BehindFirst(s: seq<Word>, before: seq<Word>, i: nat, j: nat, k: nat)
    requires i <= j <= k <= |s| == |before| && forall m :: i <= m < j ==> s[m] == before[m]
    ensures s[i..k] == before[i..j] + s[j..k]
  {
  }

  /**
    `sha256_inner`: from `ptr` on the tape is the trace of the padded rest of the message, and the result
    is where the last output state is.
  */
  method Sha256Inner(tape: array<Word>, ptr: nat, data: seq<Word>, nBytes: nat, totalBytes: nat,
                     ghost rest: seq<Byte>, ghost s: State) returns (output: nat)
    requires nBytes == |rest| && RestOf(rest, totalBytes) && Words(rest) <= data
    requires ptr + INSTANCE_SIZE * BlockCount(rest) <= tape.Length
    requires tape[ptr + 16..ptr + 24] == StateWords(s)
    modifies tape
    ensures output == ptr + INSTANCE_SIZE * BlockCount(rest) - STATE_FELTS
    ensures tape[ptr..output + STATE_FELTS] == Trace(RestWords(rest, totalBytes), BlockCount(rest), s)
    ensures forall i :: 0 <= i < tape.Length && !(ptr <= i < output + STATE_FELTS) ==> tape[i] == old(tape[i])
    decreases BlockCount(rest)
  {
    hide Words, InputBytes, StateWords, Sha256.Compress, RestWords, Trace, Instance;
    ZeroChunk(rest, totalBytes);
    var zeroChunk := IsLe(nBytes, 0) - IsLe(totalBytes, 0) - IsLe(totalBytes % 64, 0);
    if nBytes <= 55 {
      LastBlock(rest, totalBytes);
      LastChunk(tape, ptr, data, nBytes, totalBytes, zeroChunk == 1, rest, s);
      TraceOfOne(RestWords(rest, totalBytes), s);
      return ptr + 24;
    }
    var r := nBytes % CHUNK_BYTES;
    if nBytes / CHUNK_BYTES == 0 {
      MarkerBlock(rest, totalBytes);
      MiddleChunk(tape, ptr, data, r, rest, s);
      ghost var block := Words(InputBytes(rest, 16, false));
      ghost var cells := tape[..];
      NothingLeft(data);
      output := Sha256Inner(tape, ptr + 32, data, nBytes - r, totalBytes, [], Sha256.Compress(s, block));
      TraceStep(block, RestWords([], totalBytes), 1, s);
      BehindFirst(tape[..], cells, ptr, ptr + 32, output + 8);
    } else {
      MessageBlock(rest, totalBytes);
      WordCount64(rest);
      MiddleChunk(tape, ptr, data, CHUNK_BYTES, rest[..64], s);
      ghost var block := Words(InputBytes(rest[..64], 16, false));
      ghost var cells := tape[..];
      output := Sha256Inner(tape, ptr + 32, data[CHUNK_FELTS..], nBytes - CHUNK_BYTES, totalBytes, rest[64..],
                            Sha256.Compress(s, block));
      TraceStep(block, RestWords(rest[64..], totalBytes), BlockCount(rest[64..]), s);
      BehindFirst(tape[..], cells, ptr, ptr + 32, output + 8);
    }
  }

  lemma NothingLeft(data: seq<Word>)
    ensures Words([]) <= data
  {
  }

  lemma WordCount64(rest: seq<Byte>)
    requires |rest| >= 64
    ensures |Words(rest[..64])| == CHUNK_FELTS
  {
  }

  /**
    `compute_sha256`: for every message below 2^29 bytes, the tape is the trace of its padded blocks from
    the initial state on, and the result points to the digest.
  */
  method ComputeSha256(tape: array<Word>, ptr: nat, data: seq<Word>, nBytes: nat, ghost message: seq<Byte>)
      returns (output: nat)
    requires nBytes == |message| < MESSAGE_LIMIT && Words(message) <= data
    requires ptr + INSTANCE_SIZE * BlockCount(message) <= tape.Length
    modifies tape
    ensures output == ptr + INSTANCE_SIZE * BlockCount(message) - STATE_FELTS
    ensures |Words(PaddedMessage(message))| == CHUNK_FELTS * BlockCount(message)
    ensures tape[ptr..output + STATE_FELTS] == Trace(Words(PaddedMessage(message)), BlockCount(message), IV)
    ensures tape[output..output + STATE_FELTS]
            == StateWords(Digest(Words(PaddedMessage(message)), BlockCount(message), IV))
    ensures forall i :: 0 <= i < tape.Length && !(ptr <= i < output + STATE_FELTS) ==> tape[i] == old(tape[i])
  {
    hide Words, InputBytes, StateWords, Sha256.Compress, Trace, Instance, Digest, RestWords, PaddedMessage, RestOf,
         BlockCount;
    BlocksNeeded(message);
    CopyWords(tape, ptr + 16, StateWords(IV));
    WholeMessage(message);
    output := Sha256Inner(tape, ptr, data, nBytes, nBytes, message, IV);
    DigestIsLast(Words(PaddedMessage(message)), BlockCount(message), IV);
    LastSlice(tape[..], ptr, output, output + STATE_FELTS);
  }

  lemma LastSlice(s: seq<Word>, i: nat, j: nat, k: nat)
    requires i <= j <= k <= |s|
    ensures s[i..k][|s[i..k]| - (k - j)..] == s[j..k]
  {
  }

  lemma BlocksNeeded(message: seq<Byte>)
    ensures BlockCount(message) > 0
  {
  }

  lemma WholeMessage(message: seq<Byte>)
    requires |message| < MESSAGE_LIMIT
    ensures RestOf(message, |message|) && RestWords(message, |message|) == Words(PaddedMessage(message))
  {
  }

  /** The trace ends with the digest. */
  lemma {:induction false} DigestIsLast(words: seq<Word>, n: nat, s: State)
    requires |words| == CHUNK_FELTS * n && n > 0
    ensures var trace := Trace(words, n, s);
      trace[|trace| - STATE_FELTS..] == StateWords(Digest(words, n, s))
    decreases n
  {
    hide StateWords, Sha256.Compress;
    var block, more := words[..CHUNK_FELTS], words[CHUNK_FELTS..];
    var first, others := Instance(block, s), Trace(more, n - 1, Sha256.Compress(s, block));
    if n == 1 {
      assert more == [] && first + others == first;
    } else {
      DigestIsLast(more, n - 1, Sha256.Compress(s, block));
      var trace := first + others;
      assert trace[|trace| - STATE_FELTS..] == others[|others| - STATE_FELTS..];
    }
  }
}
