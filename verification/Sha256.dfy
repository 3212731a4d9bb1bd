/** SHA-256 as FIPS 180-4 defines it, over whole bytes. */
module Sha256 {
  import opened JsNumber

  // ---- section 4.1.2: functions; section 3.2: operations on words ----

  function Add(x: Word, y: Word): Word { (x + y) % TWO32 }

  function Complement(x: Word): Word { TWO32 - 1 - x }

  function RotateRight(x: Word, n: nat): Word
    requires n <= 32
  {
    WordOp(Or, ShiftRight(x, n), ShiftLeft(x, 32 - n))
  }

  function Xor3(x: Word, y: Word, z: Word): Word {
    WordOp(Xor, WordOp(Xor, x, y), z)
  }

  function Ch(x: Word, y: Word, z: Word): Word {
    WordOp(Xor, WordOp(And, x, y), WordOp(And, Complement(x), z))
  }

  function Maj(x: Word, y: Word, z: Word): Word {
    Xor3(WordOp(And, x, y), WordOp(And, x, z), WordOp(And, y, z))
  }

  function BigSigma0(x: Word): Word { Xor3(RotateRight(x, 2), RotateRight(x, 13), RotateRight(x, 22)) }

  function BigSigma1(x: Word): Word { Xor3(RotateRight(x, 6), RotateRight(x, 11), RotateRight(x, 25)) }

  function SmallSigma0(x: Word): Word { Xor3(RotateRight(x, 7), RotateRight(x, 18), ShiftRight(x, 3)) }

  function SmallSigma1(x: Word): Word { Xor3(RotateRight(x, 17), RotateRight(x, 19), ShiftRight(x, 10)) }

  // ---- section 4.2.2 and 5.3.3: constants ----

  const ROW0: seq<Word> :=
    [0x428a2f98, 0x71374491, 0xb5c0fbcf, 0xe9b5dba5, 0x3956c25b, 0x59f111f1, 0x923f82a4, 0xab1c5ed5]
  const ROW1: seq<Word> :=
    [0xd807aa98, 0x12835b01, 0x243185be, 0x550c7dc3, 0x72be5d74, 0x80deb1fe, 0x9bdc06a7, 0xc19bf174]
  const ROW2: seq<Word> :=
    [0xe49b69c1, 0xefbe4786, 0x0fc19dc6, 0x240ca1cc, 0x2de92c6f, 0x4a7484aa, 0x5cb0a9dc, 0x76f988da]
  const ROW3: seq<Word> :=
    [0x983e5152, 0xa831c66d, 0xb00327c8, 0xbf597fc7, 0xc6e00bf3, 0xd5a79147, 0x06ca6351, 0x14292967]
  const ROW4: seq<Word> :=
    [0x27b70a85, 0x2e1b2138, 0x4d2c6dfc, 0x53380d13, 0x650a7354, 0x766a0abb, 0x81c2c92e, 0x92722c85]
  const ROW5: seq<Word> :=
    [0xa2bfe8a1, 0xa81a664b, 0xc24b8b70, 0xc76c51a3, 0xd192e819, 0xd6990624, 0xf40e3585, 0x106aa070]
  const ROW6: seq<Word> :=
    [0x19a4c116, 0x1e376c08, 0x2748774c, 0x34b0bcb5, 0x391c0cb3, 0x4ed8aa4a, 0x5b9cca4f, 0x682e6ff3]
  const ROW7: seq<Word> :=
    [0x748f82ee, 0x78a5636f, 0x84c87814, 0x8cc70208, 0x90befffa, 0xa4506ceb, 0xbef9a3f7, 0xc67178f2]

  /** The 64 round constants. */
  const K: seq<Word> := ROW0 + ROW1 + ROW2 + ROW3 + ROW4 + ROW5 + ROW6 + ROW7

  datatype Hash = Hash(a: Word, b: Word, c: Word, d: Word, e: Word, f: Word, g: Word, h: Word)

  const H0 := Hash(0x6a09e667, 0xbb67ae85, 0x3c6ef372, 0xa54ff53a, 0x510e527f, 0x9b05688c, 0x1f83d9ab, 0x5be0cd19)

  // ---- section 5.1.1: padding ----

  /** Zero bytes between the 0x80 byte and the 64-bit length. */
  function ZeroBytes(n: nat): nat { (55 - n) % 64 }

  /** The most significant byte first. */
  function BigEndian(v: nat, width: nat): seq<Byte> {
    if width == 0 then [] else BigEndian(v / 256, width - 1) + [v % 256]
  }

  function Zeros(n: nat): seq<Byte> { seq(n, _ => 0) }

  function Pad(msg: seq<Byte>): seq<Byte> {
    msg + [0x80] + Zeros(ZeroBytes(|msg|)) + BigEndian(8 * |msg|, 8)
  }

  /** After a one and `k` zeros, 64 bits are left of the last 512-bit block. */
  predicate LeavesRoom(n: nat, k: nat) {
    (8 * n + 1 + k) % 512 == 448
  }

  /** In bits: a one, then the least number of zeros that leaves room for the length. */
  lemma PaddingIsLeast(n: nat)
    ensures LeavesRoom(n, 7 + 8 * ZeroBytes(n))
    ensures forall k: nat :: k < 7 + 8 * ZeroBytes(n) ==> !LeavesRoom(n, k)
  {
    var q := (55 - n) / 64;
    var least := 7 + 8 * ZeroBytes(n);
    assert 8 * n + 1 + least == 448 + 512 * -q;
    forall k: nat | k < least ensures !LeavesRoom(n, k) {
      assert 8 * n + 1 + k == 448 + 512 * -q - (least - k);
    }
  }

  lemma {:induction false} BigEndianLength(v: nat, width: nat)
    ensures |BigEndian(v, width)| == width
  {
    if width > 0 {
      BigEndianLength(v / 256, width - 1);
    }
  }

  lemma PadIsWholeBlocks(msg: seq<Byte>)
    ensures |Pad(msg)| == |msg| + 9 + ZeroBytes(|msg|)
    ensures |Pad(msg)| % 64 == 0
  {
    BigEndianLength(8 * |msg|, 8);
  }

  // ---- section 6.2.2: the hash computation ----

  function WordAt(m: seq<Byte>, i: nat): Word
    requires i + 4 <= |m|
  {
    var (b0: int, b1: int, b2: int, b3: int) := (m[i], m[i + 1], m[i + 2], m[i + 3]);
    b0 * 0x100_0000 + b1 * 0x1_0000 + b2 * 0x100 + b3
  }

  /** `W_t` of the block that starts at `off`. */
  function Schedule(m: seq<Byte>, off: nat, t: nat): Word
    requires off + 64 <= |m| && t < 64
  {
    if t < 16 then WordAt(m, off + 4 * t)
    else
      Add(Add(Add(SmallSigma1(Schedule(m, off, t - 2)), Schedule(m, off, t - 7)),
              SmallSigma0(Schedule(m, off, t - 15))),
          Schedule(m, off, t - 16))
  }

  function T1(v: Hash, k: Word, w: Word): Word {
    Add(Add(Add(Add(v.h, BigSigma1(v.e)), Ch(v.e, v.f, v.g)), k), w)
  }

  function T2(v: Hash): Word {
    Add(BigSigma0(v.a), Maj(v.a, v.b, v.c))
  }

  function Round(v: Hash, k: Word, w: Word): Hash {
    Hash(Add(T1(v, k, w), T2(v)), v.a, v.b, v.c, Add(v.d, T1(v, k, w)), v.e, v.f, v.g)
  }

  function Rounds(v: Hash, m: seq<Byte>, off: nat, t: nat): Hash
    requires off + 64 <= |m| && t <= 64
  {
    if t == 0 then v else Round(Rounds(v, m, off, t - 1), K[t - 1], Schedule(m, off, t - 1))
  }

  function Sum(x: Hash, y: Hash): Hash {
    Hash(Add(x.a, y.a), Add(x.b, y.b), Add(x.c, y.c), Add(x.d, y.d),
         Add(x.e, y.e), Add(x.f, y.f), Add(x.g, y.g), Add(x.h, y.h))
  }

  function BlockHash(v: Hash, m: seq<Byte>, off: nat): Hash
    requires off + 64 <= |m|
  {
    Sum(v, Rounds(v, m, off, 64))
  }

  /** The hash value after the first `n` blocks. */
  function Intermediate(m: seq<Byte>, n: nat): Hash
    requires 64 * n <= |m|
  {
    if n == 0 then H0 else BlockHash(Intermediate(m, n - 1), m, 64 * (n - 1))
  }

  function Output(v: Hash): seq<Byte> {
    BigEndian(v.a, 4) + BigEndian(v.b, 4) + BigEndian(v.c, 4) + BigEndian(v.d, 4)
    + BigEndian(v.e, 4) + BigEndian(v.f, 4) + BigEndian(v.g, 4) + BigEndian(v.h, 4)
  }

  function Digest(msg: seq<Byte>): seq<Byte> {
    PadIsWholeBlocks(msg);
    Output(Intermediate(Pad(msg), |Pad(msg)| / 64))
  }

  // ---- where the constants come from ----

  /** `w` is the first 32 bits of the fractional part of the square root of `p`, whose whole part is `i`. */
  predicate SquareRootWord(p: nat, i: nat, w: Word) {
    var c := i * TWO32 + w;
    c * c <= p * TWO32 * TWO32 < (c + 1) * (c + 1)
  }

  lemma InitialHashIsSquareRoots()
    ensures SquareRootWord(2, 1, H0.a) && SquareRootWord(3, 1, H0.b)
    ensures SquareRootWord(5, 2, H0.c) && SquareRootWord(7, 2, H0.d)
    ensures SquareRootWord(11, 3, H0.e) && SquareRootWord(13, 3, H0.f)
    ensures SquareRootWord(17, 4, H0.g) && SquareRootWord(19, 4, H0.h)
  {
  }

  /** `w` is the first 32 bits of the fractional part of the cube root of `p`, which is below 343. */
  predicate CubeRootWord(p: nat, w: Word) {
    var i := if p < 8 then 1 else if p < 27 then 2 else if p < 64 then 3
             else if p < 125 then 4 else if p < 216 then 5 else 6;
    var c := i * TWO32 + w;
    c * c * c <= p * TWO32 * TWO32 * TWO32 < (c + 1) * (c + 1) * (c + 1)
  }

  /** The round constants come from the first 64 primes. */
  lemma EarlyRoundConstantsAreCubeRoots()
    ensures CubeRootWord(2, ROW0[0]) && CubeRootWord(3, ROW0[1])
    ensures CubeRootWord(5, ROW0[2]) && CubeRootWord(7, ROW0[3])
    ensures CubeRootWord(11, ROW0[4]) && CubeRootWord(13, ROW0[5])
    ensures CubeRootWord(17, ROW0[6]) && CubeRootWord(19, ROW0[7])
    ensures CubeRootWord(23, ROW1[0]) && CubeRootWord(29, ROW1[1])
    ensures CubeRootWord(31, ROW1[2]) && CubeRootWord(37, ROW1[3])
    ensures CubeRootWord(41, ROW1[4]) && CubeRootWord(43, ROW1[5])
    ensures CubeRootWord(47, ROW1[6]) && CubeRootWord(53, ROW1[7])
    ensures CubeRootWord(59, ROW2[0]) && CubeRootWord(61, ROW2[1])
    ensures CubeRootWord(67, ROW2[2]) && CubeRootWord(71, ROW2[3])
    ensures CubeRootWord(73, ROW2[4]) && CubeRootWord(79, ROW2[5])
    ensures CubeRootWord(83, ROW2[6]) && CubeRootWord(89, ROW2[7])
    ensures CubeRootWord(97, ROW3[0]) && CubeRootWord(101, ROW3[1])
    ensures CubeRootWord(103, ROW3[2]) && CubeRootWord(107, ROW3[3])
    ensures CubeRootWord(109, ROW3[4]) && CubeRootWord(113, ROW3[5])
    ensures CubeRootWord(127, ROW3[6]) && CubeRootWord(131, ROW3[7])
  {
  }

  lemma LateRoundConstantsAreCubeRoots()
    ensures CubeRootWord(137, ROW4[0]) && CubeRootWord(139, ROW4[1])
    ensures CubeRootWord(149, ROW4[2]) && CubeRootWord(151, ROW4[3])
    ensures CubeRootWord(157, ROW4[4]) && CubeRootWord(163, ROW4[5])
    ensures CubeRootWord(167, ROW4[6]) && CubeRootWord(173, ROW4[7])
    ensures CubeRootWord(179, ROW5[0]) && CubeRootWord(181, ROW5[1])
    ensures CubeRootWord(191, ROW5[2]) && CubeRootWord(193, ROW5[3])
    ensures CubeRootWord(197, ROW5[4]) && CubeRootWord(199, ROW5[5])
    ensures CubeRootWord(211, ROW5[6]) && CubeRootWord(223, ROW5[7])
    ensures CubeRootWord(227, ROW6[0]) && CubeRootWord(229, ROW6[1])
    ensures CubeRootWord(233, ROW6[2]) && CubeRootWord(239, ROW6[3])
    ensures CubeRootWord(241, ROW6[4]) && CubeRootWord(251, ROW6[5])
    ensures CubeRootWord(257, ROW6[6]) && CubeRootWord(263, ROW6[7])
    ensures CubeRootWord(269, ROW7[0]) && CubeRootWord(271, ROW7[1])
    ensures CubeRootWord(277, ROW7[2]) && CubeRootWord(281, ROW7[3])
    ensures CubeRootWord(283, ROW7[4]) && CubeRootWord(293, ROW7[5])
    ensures CubeRootWord(307, ROW7[6]) && CubeRootWord(311, ROW7[7])
  {
  }
}
