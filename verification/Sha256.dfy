/**
  SHA-256 on 32-bit words, as FIPS 180-4 defines it: the functions of section 4.1.2 and the hash
  computation of section 6.2.2. Words are natural numbers below 2^32.
*/
module Sha256 {
  import opened Arithmetic
  import opened StarkPrime
  import opened Bits

  const WORD: nat := 0x1_0000_0000

  type Word = x: nat | x < WORD witness 0

  /** The right shift joined with the truncated left shift of the same word. */
  function RotR(x: nat, n: nat): nat
    requires n < 32
  {
    Shr(x, n) + (x * Pow2(32 - n)) % WORD
  }

  function Shr(x: nat, n: nat): nat {
    x / Pow2(n)
  }

  function RotateXor(x: nat, i: nat, j: nat, k: nat): nat
    requires i < 32 && j < 32 && k < 32
  {
    Xor(Xor(RotR(x, i), RotR(x, j)), RotR(x, k))
  }

  function RotateShift(x: nat, i: nat, j: nat, k: nat): nat
    requires i < 32 && j < 32
  {
    Xor(Xor(RotR(x, i), RotR(x, j)), Shr(x, k))
  }

  /** Word `t` of the message schedule. */
  function Scheduled(m: seq<Word>, t: nat): Word
    requires |m| == 16
  {
    if t < 16 then m[t]
    else (RotateShift(Scheduled(m, t - 2), 17, 19, 10) + Scheduled(m, t - 7)
          + RotateShift(Scheduled(m, t - 15), 7, 18, 3) + Scheduled(m, t - 16)) % WORD
  }

  datatype State = State(a: Word, b: Word, c: Word, d: Word, e: Word, f: Word, g: Word, h: Word)
  {
    function Plus(s: State): State {
      State((a + s.a) % WORD, (b + s.b) % WORD, (c + s.c) % WORD, (d + s.d) % WORD,
            (e + s.e) % WORD, (f + s.f) % WORD, (g + s.g) % WORD, (h + s.h) % WORD)
    }
  }

  /** The 32-bit complement chooses between the last two words. */
  function Ch(x: Word, y: Word, z: Word): nat
  {
    WordSize();
    Choice(x, y, z, 32)
  }

  lemma WordSize()
    ensures Pow2(32) == WORD
  {
    assert Pow2(1) == 2 * Pow2(0) == 2;
    TwoPowers(1, 1, 2, 2);
    TwoPowers(2, 2, 4, 4);
    TwoPowers(4, 4, 16, 16);
    TwoPowers(8, 8, 0x100, 0x100);
    TwoPowers(16, 16, 0x1_0000, 0x1_0000);
  }

  function Temp1(s: State, k: Word, w: Word): nat
  {
    s.h + RotateXor(s.e, 6, 11, 25) + Ch(s.e, s.f, s.g) + k + w
  }

  function Temp2(s: State): nat {
    RotateXor(s.a, 2, 13, 22) + Majority(s.a, s.b, s.c)
  }

  function Round(s: State, k: Word, w: Word): State
  {
    State((Temp1(s, k, w) + Temp2(s)) % WORD, s.a, s.b, s.c, (s.d + Temp1(s, k, w)) % WORD, s.e, s.f, s.g)
  }

  /** The state after `n` rounds. */
  function Rounds(s: State, m: seq<Word>, n: nat): State
    requires |m| == 16 && n <= 64
  {
    if n == 0 then s else Round(Rounds(s, m, n - 1), K()[n - 1], Scheduled(m, n - 1))
  }

  /** One block: 64 rounds, added to the state that they start from. */
  function Compress(s: State, m: seq<Word>): State
    requires |m| == 16
  {
    s.Plus(Rounds(s, m, 64))
  }

  /** The 64 constants of section 4.2.2. */
  function K(): (k: seq<Word>)
    ensures |k| == 64
  {
    [0x428a2f98, 0x71374491, 0xb5c0fbcf, 0xe9b5dba5, 0x3956c25b, 0x59f111f1, 0x923f82a4, 0xab1c5ed5]
    + [0xd807aa98, 0x12835b01, 0x243185be, 0x550c7dc3, 0x72be5d74, 0x80deb1fe, 0x9bdc06a7, 0xc19bf174]
    + [0xe49b69c1, 0xefbe4786, 0x0fc19dc6, 0x240ca1cc, 0x2de92c6f, 0x4a7484aa, 0x5cb0a9dc, 0x76f988da]
    + [0x983e5152, 0xa831c66d, 0xb00327c8, 0xbf597fc7, 0xc6e00bf3, 0xd5a79147, 0x06ca6351, 0x14292967]
    + [0x27b70a85, 0x2e1b2138, 0x4d2c6dfc, 0x53380d13, 0x650a7354, 0x766a0abb, 0x81c2c92e, 0x92722c85]
    + [0xa2bfe8a1, 0xa81a664b, 0xc24b8b70, 0xc76c51a3, 0xd192e819, 0xd6990624, 0xf40e3585, 0x106aa070]
    + [0x19a4c116, 0x1e376c08, 0x2748774c, 0x34b0bcb5, 0x391c0cb3, 0x4ed8aa4a, 0x5b9cca4f, 0x682e6ff3]
    + [0x748f82ee, 0x78a5636f, 0x84c87814, 0x8cc70208, 0x90befffa, 0xa4506ceb, 0xbef9a3f7, 0xc67178f2]
  }
}
