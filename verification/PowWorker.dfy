/** The browser's proof-of-work solver: its hand-written SHA-256 and its nonce search. */
module PowWorker {
  import opened JsNumber
  import opened LeadingZeros
  import S = Sha256

  function Rotr(x: int, n: nat): int
    requires n <= 32
  {
    Bits(Or, Shr(x, n), Shl(x, 32 - n))
  }

  // ---- signed 32-bit arithmetic is arithmetic on words ----

  lemma AddWords(a: int, b: int)
    ensures ToUint32(a + b) == S.Add(ToUint32(a), ToUint32(b))
  {
  }

  lemma RotrWord(x: int, n: nat)
    requires 0 < n < 32
    ensures ToUint32(Rotr(x, n)) == S.RotateRight(ToUint32(x), n)
  {
    BitWords(Or, Shr(x, n), Shl(x, 32 - n));
    ShiftWords(x, n);
    ShiftWords(x, 32 - n);
  }

  function Xor3(a: int, b: int, c: int): int {
    Bits(Xor, Bits(Xor, a, b), c)
  }

  lemma Xor3Words(a: int, b: int, c: int)
    ensures ToUint32(Xor3(a, b, c)) == S.Xor3(ToUint32(a), ToUint32(b), ToUint32(c))
  {
    BitWords(Xor, a, b);
    BitWords(Xor, Bits(Xor, a, b), c);
  }

  /** `rotr(x, n0) ^ rotr(x, n1) ^ rotr(x, n2)`. */
  lemma RotationsWord(x: int, n0: nat, n1: nat, n2: nat)
    requires 0 < n0 < 32 && 0 < n1 < 32 && 0 < n2 < 32
    ensures ToUint32(Xor3(Rotr(x, n0), Rotr(x, n1), Rotr(x, n2)))
         == S.Xor3(S.RotateRight(ToUint32(x), n0), S.RotateRight(ToUint32(x), n1), S.RotateRight(ToUint32(x), n2))
  {
    RotrWord(x, n0);
    RotrWord(x, n1);
    RotrWord(x, n2);
    Xor3Words(Rotr(x, n0), Rotr(x, n1), Rotr(x, n2));
  }

  /** `rotr(x, n0) ^ rotr(x, n1) ^ (x >>> n2)`. */
  lemma RotationsAndShiftWord(x: int, n0: nat, n1: nat, n2: nat)
    requires 0 < n0 < 32 && 0 < n1 < 32 && 0 < n2 < 32
    ensures ToUint32(Xor3(Rotr(x, n0), Rotr(x, n1), Shr(x, n2)))
         == S.Xor3(S.RotateRight(ToUint32(x), n0), S.RotateRight(ToUint32(x), n1), ShiftRight(ToUint32(x), n2))
  {
    RotrWord(x, n0);
    RotrWord(x, n1);
    ShiftWords(x, n2);
    Xor3Words(Rotr(x, n0), Rotr(x, n1), Shr(x, n2));
  }

  lemma Sum4(a: int, b: int, c: int, d: int, ua: Word, ub: Word, uc: Word, ud: Word)
    requires ToUint32(a) == ua && ToUint32(b) == ub && ToUint32(c) == uc && ToUint32(d) == ud
    ensures ToUint32(ToInt32(a + b + c + d)) == S.Add(S.Add(S.Add(ua, ub), uc), ud)
  {
    AddWords(a, b);
    AddWords(a + b, c);
    AddWords(a + b + c, d);
    SignedReading(a + b + c + d);
  }

  lemma Sum2(a: int, b: int, ua: Word, ub: Word)
    requires ToUint32(a) == ua && ToUint32(b) == ub
    ensures ToUint32(ToInt32(a + b)) == S.Add(ua, ub)
  {
    AddWords(a, b);
    SignedReading(a + b);
  }

  // ---- one step of the schedule and of the rounds ----

  function ScheduleStep(w16: int, w15: int, w7: int, w2: int): int {
    var s0 := Xor3(Rotr(w15, 7), Rotr(w15, 18), Shr(w15, 3));
    var s1 := Xor3(Rotr(w2, 17), Rotr(w2, 19), Shr(w2, 10));
    ToInt32(w16 + s0 + w7 + s1)
  }

  lemma ScheduleStepWord(w16: Word, w15: Word, w7: Word, w2: Word)
    ensures ToUint32(ScheduleStep(w16, w15, w7, w2))
         == S.Add(S.Add(S.Add(S.SmallSigma1(w2), w7), S.SmallSigma0(w15)), w16)
  {
    hide ShiftRight, WordOp, Bits, Rotr, Xor3, Shr, S.RotateRight, S.Xor3, S.Add, ToInt32;
    var s0 := Xor3(Rotr(w15, 7), Rotr(w15, 18), Shr(w15, 3));
    var s1 := Xor3(Rotr(w2, 17), Rotr(w2, 19), Shr(w2, 10));
    WordReading(w15);
    WordReading(w2);
    WordReading(w7);
    WordReading(w16);
    RotationsAndShiftWord(w15, 7, 18, 3);
    RotationsAndShiftWord(w2, 17, 19, 10);
    assert w16 + s0 + w7 + s1 == s1 + w7 + s0 + w16;
    Sum4(s1, w7, s0, w16, S.SmallSigma1(w2), w7, S.SmallSigma0(w15), w16);
  }

  datatype Vars = Vars(a: int, b: int, c: int, d: int, e: int, f: int, g: int, h: int)
  {
    /** The variables read as words. */
    function Words(): S.Hash {
      S.Hash(ToUint32(a), ToUint32(b), ToUint32(c), ToUint32(d), ToUint32(e), ToUint32(f), ToUint32(g), ToUint32(h))
    }
  }

  function T1(v: Vars, k: int, w: int): int {
    var bigS1 := Xor3(Rotr(v.e, 6), Rotr(v.e, 11), Rotr(v.e, 25));
    var ch := Bits(Xor, Bits(And, v.e, v.f), Bits(And, Not(v.e), v.g));
    ToInt32(v.h + bigS1 + ch + k + w)
  }

  function T2(v: Vars): int {
    var bigS0 := Xor3(Rotr(v.a, 2), Rotr(v.a, 13), Rotr(v.a, 22));
    var maj := Xor3(Bits(And, v.a, v.b), Bits(And, v.a, v.c), Bits(And, v.b, v.c));
    ToInt32(bigS0 + maj)
  }

  lemma ChWord(x: int, y: int, z: int)
    ensures ToUint32(Bits(Xor, Bits(And, x, y), Bits(And, Not(x), z))) == S.Ch(ToUint32(x), ToUint32(y), ToUint32(z))
  {
    hide Bitwise, WordOp, Bits;
    SignedReading(TWO32 - 1 - ToUint32(x));
    BitWords(And, x, y);
    BitWords(And, Not(x), z);
    BitWords(Xor, Bits(And, x, y), Bits(And, Not(x), z));
  }

  lemma MajWord(x: int, y: int, z: int)
    ensures ToUint32(Xor3(Bits(And, x, y), Bits(And, x, z), Bits(And, y, z)))
            == S.Maj(ToUint32(x), ToUint32(y), ToUint32(z))
  {
    hide Bitwise, WordOp, Bits;
    BitWords(And, x, y);
    BitWords(And, x, z);
    BitWords(And, y, z);
    Xor3Words(Bits(And, x, y), Bits(And, x, z), Bits(And, y, z));
  }

  lemma Sum5(a: int, b: int, c: int, d: int, e: int, ua: Word, ub: Word, uc: Word, ud: Word, ue: Word)
    requires ToUint32(a) == ua && ToUint32(b) == ub && ToUint32(c) == uc && ToUint32(d) == ud && ToUint32(e) == ue
    ensures ToUint32(ToInt32(a + b + c + d + e)) == S.Add(S.Add(S.Add(S.Add(ua, ub), uc), ud), ue)
  {
    Sum4(a, b, c, d, ua, ub, uc, ud);
    SignedReading(a + b + c + d);
    AddWords(a + b + c + d, e);
    SignedReading(a + b + c + d + e);
  }

  lemma T1Word(v: Vars, k: Word, w: Word)
    ensures ToUint32(T1(v, k, w)) == S.T1(v.Words(), k, w)
  {
    hide Bitwise, WordOp, Bits, Rotr, Xor3, S.RotateRight, S.Xor3, S.Ch, S.Add, ToInt32, Not;
    var u := v.Words();
    var bigS1 := Xor3(Rotr(v.e, 6), Rotr(v.e, 11), Rotr(v.e, 25));
    var ch := Bits(Xor, Bits(And, v.e, v.f), Bits(And, Not(v.e), v.g));
    RotationsWord(v.e, 6, 11, 25);
    ChWord(v.e, v.f, v.g);
    WordReading(k);
    WordReading(w);
    Sum5(v.h, bigS1, ch, k, w, u.h, S.BigSigma1(u.e), S.Ch(u.e, u.f, u.g), k, w);
  }

  lemma T2Word(v: Vars)
    ensures ToUint32(T2(v)) == S.T2(v.Words())
  {
    hide Bitwise, WordOp, Bits, Rotr, Xor3, S.RotateRight, S.Xor3, S.Maj, S.Add, ToInt32;
    var u := v.Words();
    var bigS0 := Xor3(Rotr(v.a, 2), Rotr(v.a, 13), Rotr(v.a, 22));
    var maj := Xor3(Bits(And, v.a, v.b), Bits(And, v.a, v.c), Bits(And, v.b, v.c));
    RotationsWord(v.a, 2, 13, 22);
    MajWord(v.a, v.b, v.c);
    Sum2(bigS0, maj, S.BigSigma0(u.a), S.Maj(u.a, u.b, u.c));
  }

  /** The shuffle of the eight variables, given the words of the two temporaries. */
  lemma ShuffleWords(v: Vars, t1: int, t2: int, u1: Word, u2: Word)
    requires ToUint32(t1) == u1 && ToUint32(t2) == u2
    ensures var u := v.Words();
            Vars(ToInt32(t1 + t2), v.a, v.b, v.c, ToInt32(v.d + t1), v.e, v.f, v.g).Words()
            == S.Hash(S.Add(u1, u2), u.a, u.b, u.c, S.Add(u.d, u1), u.e, u.f, u.g)
  {
    Sum2(t1, t2, u1, u2);
    Sum2(v.d, t1, ToUint32(v.d), u1);
  }

  lemma RoundWords(v: Vars, k: Word, w: Word)
    ensures Vars(ToInt32(T1(v, k, w) + T2(v)), v.a, v.b, v.c, ToInt32(v.d + T1(v, k, w)), v.e, v.f, v.g).Words()
         == S.Round(v.Words(), k, w)
  {
    hide T1, T2, S.T1, S.T2, ToUint32, ToInt32, S.Add;
    T1Word(v, k, w);
    T2Word(v);
    ShuffleWords(v, T1(v, k, w), T2(v), S.T1(v.Words(), k, w), S.T2(v.Words()));
  }

  // ---- the digest ----

  /** `DataView.setUint32(off, v, false)`. */
  method SetUint32(m: array<Byte>, off: nat, v: int)
    requires off + 4 <= m.Length
    modifies m
    ensures m[..] == old(m[..])[..off] + S.BigEndian(ToUint32(v), 4) + old(m[..])[off + 4..]
  {
    var u := ToUint32(v);
    m[off] := u / 0x100_0000;
    m[off + 1] := u / 0x1_0000 % 256;
    m[off + 2] := u / 0x100 % 256;
    m[off + 3] := u % 256;
    FourBytes(u);
  }

  lemma LastFourBytes(v: nat, k: nat)
    ensures S.BigEndian(v, k + 4)
         == S.BigEndian(v / TWO32, k) + [v / 0x100_0000 % 256, v / 0x1_0000 % 256, v / 0x100 % 256, v % 256]
  {
    assert S.BigEndian(v, k + 4) == S.BigEndian(v / 0x100, k + 3) + [v % 256];
    assert S.BigEndian(v / 0x100, k + 3) == S.BigEndian(v / 0x1_0000, k + 2) + [v / 0x100 % 256];
    assert S.BigEndian(v / 0x1_0000, k + 2) == S.BigEndian(v / 0x100_0000, k + 1) + [v / 0x1_0000 % 256];
    assert S.BigEndian(v / 0x100_0000, k + 1) == S.BigEndian(v / TWO32, k) + [v / 0x100_0000 % 256];
  }

  lemma FourBytes(u: Word)
    ensures S.BigEndian(u, 4) == [u / 0x100_0000, u / 0x1_0000 % 256, u / 0x100 % 256, u % 256]
  {
    LastFourBytes(u, 0);
  }

  /** `DataView.getUint32(off, false)`: it reads back what `SetUint32` writes. */
  method GetUint32(m: array<Byte>, off: nat) returns (v: Word)
    requires off + 4 <= m.Length
    ensures v == S.WordAt(m[..], off)
    ensures S.BigEndian(v, 4) == m[off..off + 4]
  {
    var (b0: int, b1: int, b2: int, b3: int) := (m[off], m[off + 1], m[off + 2], m[off + 3]);
    v := 256 * (256 * (256 * b0 + b1) + b2) + b3;
    FourBytes(v);
    BytesOfWord(b0, b1, b2, b3);
  }

  lemma BytesOfWord(b0: Byte, b1: Byte, b2: Byte, b3: Byte)
    ensures var u := 256 * (256 * (256 * b0 + b1) + b2) + b3;
            && u / 0x100_0000 == b0 && u / 0x1_0000 % 256 == b1 && u / 0x100 % 256 == b2 && u % 256 == b3
  {
  }

  /** The `padded` expression. */
  function PaddedLength(l: nat): int {
    Shr(Shl(Sar(l + 8, 6) + 1, 6), 0)
  }

  lemma PaddedLengthIsFips(l: nat)
    requires l + 8 < TWO31
    ensures PaddedLength(l) == l + 9 + S.ZeroBytes(l)
    ensures PaddedLength(l) % 64 == 0
  {
    hide Halved, ShiftLeft, ShiftRight;
    var blocks: Word := (l + 8) / 64 + 1;
    HalvedSixTimes(l + 8);
    assert Sar(l + 8, 6) + 1 == blocks;
    ShiftWords(blocks, 6);
    ShiftedSixTimes(blocks);
    ShiftWords(Shl(blocks, 6), 0);
    ShiftedNotAtAll(ToUint32(Shl(blocks, 6)));
    assert PaddedLength(l) == 64 * blocks;
  }

  lemma ShiftedNotAtAll(x: Word)
    ensures ShiftRight(x, 0) == x
  {
  }

  lemma HalvedSixTimes(x: int)
    ensures Halved(x, 6) == x / 64
  {
    assert Halved(x, 1) == x / 2;
    assert Halved(x, 2) == x / 4;
    assert Halved(x, 3) == x / 8;
    assert Halved(x, 4) == x / 16;
    assert Halved(x, 5) == x / 32;
  }

  lemma ShiftedSixTimes(x: Word)
    requires 64 * x < TWO32
    ensures ShiftLeft(x, 6) == 64 * x
  {
    assert ShiftLeft(x, 1) == 2 * x;
    assert ShiftLeft(x, 2) == 4 * x;
    assert ShiftLeft(x, 3) == 8 * x;
    assert ShiftLeft(x, 4) == 16 * x;
    assert ShiftLeft(x, 5) == 32 * x;
  }

  /** The first sixteen words from the message, the other forty-eight from the recurrence. */
  method FillSchedule(m: array<Byte>, off: nat, w: array<Word>)
    requires off + 64 <= m.Length && w.Length == 64
    modifies w
    ensures forall t :: 0 <= t < 64 ==> w[t] == S.Schedule(m[..], off, t)
  {
    hide Bitwise, ScheduleStep, S.SmallSigma0, S.SmallSigma1, S.Add;
    ghost var bytes := m[..];
    for i := 0 to 16
      invariant m[..] == bytes
      invariant forall t :: 0 <= t < i ==> w[t] == S.Schedule(bytes, off, t)
    {
      var word := GetUint32(m, off + i * 4);
      w[i] := word;
    }
    for i := 16 to 64
      invariant m[..] == bytes
      invariant forall t :: 0 <= t < i ==> w[t] == S.Schedule(bytes, off, t)
    {
      ScheduleStepWord(w[i - 16], w[i - 15], w[i - 7], w[i - 2]);
      w[i] := ToUint32(ScheduleStep(w[i - 16], w[i - 15], w[i - 7], w[i - 2]));
    }
  }

  /** The worker's own table. */
  const K: seq<Word> :=
    [0x428a2f98, 0x71374491, 0xb5c0fbcf, 0xe9b5dba5, 0x3956c25b, 0x59f111f1, 0x923f82a4, 0xab1c5ed5]
    + [0xd807aa98, 0x12835b01, 0x243185be, 0x550c7dc3, 0x72be5d74, 0x80deb1fe, 0x9bdc06a7, 0xc19bf174]
    + [0xe49b69c1, 0xefbe4786, 0x0fc19dc6, 0x240ca1cc, 0x2de92c6f, 0x4a7484aa, 0x5cb0a9dc, 0x76f988da]
    + [0x983e5152, 0xa831c66d, 0xb00327c8, 0xbf597fc7, 0xc6e00bf3, 0xd5a79147, 0x06ca6351, 0x14292967]
    + [0x27b70a85, 0x2e1b2138, 0x4d2c6dfc, 0x53380d13, 0x650a7354, 0x766a0abb, 0x81c2c92e, 0x92722c85]
    + [0xa2bfe8a1, 0xa81a664b, 0xc24b8b70, 0xc76c51a3, 0xd192e819, 0xd6990624, 0xf40e3585, 0x106aa070]
    + [0x19a4c116, 0x1e376c08, 0x2748774c, 0x34b0bcb5, 0x391c0cb3, 0x4ed8aa4a, 0x5b9cca4f, 0x682e6ff3]
    + [0x748f82ee, 0x78a5636f, 0x84c87814, 0x8cc70208, 0x90befffa, 0xa4506ceb, 0xbef9a3f7, 0xc67178f2]

  lemma TableIsFips()
    ensures K == S.K && |K| == 64
  {
  }

  method RunRounds(w: array<Word>, start: Vars, ghost m: seq<Byte>, ghost off: nat) returns (v: Vars)
    requires w.Length == 64 && off + 64 <= |m|
    requires forall t :: 0 <= t < 64 ==> w[t] == S.Schedule(m, off, t)
    ensures v.Words() == S.Rounds(start.Words(), m, off, 64)
  {
    TableIsFips();
    hide T1, T2, S.Round, S.Schedule, ToUint32, ToInt32, K;
    v := start;
    for i := 0 to 64
      invariant v.Words() == S.Rounds(start.Words(), m, off, i)
    {
      RoundWords(v, K[i], w[i]);
      var t1 := T1(v, K[i], w[i]);
      var t2 := T2(v);
      v := Vars(ToInt32(t1 + t2), v.a, v.b, v.c, ToInt32(v.d + t1), v.e, v.f, v.g);
    }
  }

  lemma SumWords(x: Vars, y: Vars)
    ensures Vars(ToInt32(x.a + y.a), ToInt32(x.b + y.b), ToInt32(x.c + y.c), ToInt32(x.d + y.d),
                 ToInt32(x.e + y.e), ToInt32(x.f + y.f), ToInt32(x.g + y.g), ToInt32(x.h + y.h)).Words()
         == S.Sum(x.Words(), y.Words())
  {
    AddWords(x.a, y.a); AddWords(x.b, y.b); AddWords(x.c, y.c); AddWords(x.d, y.d);
    AddWords(x.e, y.e); AddWords(x.f, y.f); AddWords(x.g, y.g); AddWords(x.h, y.h);
    SignedReading(x.a + y.a); SignedReading(x.b + y.b); SignedReading(x.c + y.c); SignedReading(x.d + y.d);
    SignedReading(x.e + y.e); SignedReading(x.f + y.f); SignedReading(x.g + y.g); SignedReading(x.h + y.h);
  }

  /** The two 32-bit halves of the length field, written big-endian at the end of the buffer. */
  lemma LengthHalves(v: nat)
    ensures S.BigEndian(v, 8) == S.BigEndian(v / TWO32, 4) + S.BigEndian(v % TWO32, 4)
  {
    hide S.BigEndian;
    LastFourBytes(v, 4);
    FourBytes(v % TWO32);
    LowBytes(v);
  }

  lemma LowBytes(v: nat)
    ensures v % TWO32 / 0x100_0000 == v / 0x100_0000 % 256
    ensures v % TWO32 / 0x1_0000 % 256 == v / 0x1_0000 % 256
    ensures v % TWO32 / 0x100 % 256 == v / 0x100 % 256
    ensures v % TWO32 % 256 == v % 256
  {
    var h, u := v / TWO32, v % TWO32;
    assert v == TWO32 * h + u;
    HighPart24(h, u);
    HighPart16(h, u);
    HighPart8(h, u);
    SameLowByte(v / 0x100_0000, u / 0x100_0000, h);
    SameLowByte(v / 0x1_0000, u / 0x1_0000, 256 * h);
    SameLowByte(v / 0x100, u / 0x100, 0x1_0000 * h);
    SameLowByte(v, u, 0x100_0000 * h);
  }

  lemma SameLowByte(a: nat, b: nat, turns: nat)
    requires a == 256 * turns + b
    ensures a % 256 == b % 256
  {
  }

  lemma HighPart24(h: nat, u: Word)
    ensures (TWO32 * h + u) / 0x100_0000 == 256 * h + u / 0x100_0000
  {
  }

  lemma HighPart16(h: nat, u: Word)
    ensures (TWO32 * h + u) / 0x1_0000 == 256 * (256 * h) + u / 0x1_0000
  {
  }

  lemma HighPart8(h: nat, u: Word)
    ensures (TWO32 * h + u) / 0x100 == 256 * (0x1_0000 * h) + u / 0x100
  {
  }

  /** A zeroed buffer with the message and the 0x80 byte in front. */
  method CopyMessage(msg: seq<Byte>, padded: nat) returns (m: array<Byte>)
    requires |msg| < padded
    ensures fresh(m) && m[..] == msg + [0x80] + S.Zeros(padded - |msg| - 1)
  {
    m := new Byte[padded](_ => 0);
    forall i | 0 <= i < |msg| {
      m[i] := msg[i];
    }
    m[|msg|] := 0x80;
  }

  method PadMessage(msg: seq<Byte>) returns (m: array<Byte>)
    requires |msg| + 8 < TWO31
    ensures fresh(m) && m[..] == S.Pad(msg)
  {
    hide PaddedLength, S.BigEndian;
    PaddedLengthIsFips(|msg|);
    var padded := PaddedLength(|msg|);
    m := CopyMessage(msg, padded);
    var bitLen := |msg| * 8;
    ghost var front := msg + [0x80] + S.Zeros(S.ZeroBytes(|msg|));
    assert m[..] == front + S.Zeros(8);
    S.BigEndianLength(ToUint32(bitLen / TWO32), 4);
    SetUint32(m, padded - 8, bitLen / TWO32);
    assert m[..] == front + S.BigEndian(ToUint32(bitLen / TWO32), 4) + S.Zeros(4);
    SetUint32(m, padded - 4, Shr(bitLen, 0));
    ShiftWords(bitLen, 0);
    ShiftedNotAtAll(ToUint32(bitLen));
    LengthHalves(bitLen);
    WordReading(bitLen / TWO32);
    assert m[..] == front + (S.BigEndian(bitLen / TWO32, 4) + S.BigEndian(bitLen % TWO32, 4));
  }

  /** One pass of the outer loop. */
  method HashBlock(m: array<Byte>, off: nat, w: array<Word>, v: Vars) returns (v': Vars)
    requires off + 64 <= m.Length && w.Length == 64
    modifies w
    ensures v'.Words() == S.BlockHash(v.Words(), m[..], off)
  {
    hide S.Schedule, S.Rounds, S.Add, ToUint32, ToInt32;
    ghost var bytes := m[..];
    FillSchedule(m, off, w);
    assert m[..] == bytes;
    var x := RunRounds(w, v, m[..], off);
    SumWords(v, x);
    v' := Vars(ToInt32(v.a + x.a), ToInt32(v.b + x.b), ToInt32(v.c + x.c), ToInt32(v.d + x.d),
               ToInt32(v.e + x.e), ToInt32(v.f + x.f), ToInt32(v.g + x.g), ToInt32(v.h + x.h));
  }

  /** The first `j` words, most significant byte first. */
  function OutputUpTo(words: seq<Word>, j: nat): seq<Byte>
    requires j <= |words|
  {
    if j == 0 then [] else OutputUpTo(words, j - 1) + S.BigEndian(words[j - 1], 4)
  }

  lemma OutputIsFips(v: S.Hash)
    ensures OutputUpTo([v.a, v.b, v.c, v.d, v.e, v.f, v.g, v.h], 8) == S.Output(v)
  {
    var words := [v.a, v.b, v.c, v.d, v.e, v.f, v.g, v.h];
    hide S.BigEndian;
    assert OutputUpTo(words, 1) == S.BigEndian(v.a, 4);
    assert OutputUpTo(words, 3) == OutputUpTo(words, 1) + S.BigEndian(v.b, 4) + S.BigEndian(v.c, 4);
    assert OutputUpTo(words, 5) == OutputUpTo(words, 3) + S.BigEndian(v.d, 4) + S.BigEndian(v.e, 4);
    assert OutputUpTo(words, 7) == OutputUpTo(words, 5) + S.BigEndian(v.f, 4) + S.BigEndian(v.g, 4);
  }

  lemma ShiftByNothing(x: int)
    ensures ToUint32(Shr(x, 0)) == ToUint32(x)
  {
    ShiftWords(x, 0);
    ShiftedNotAtAll(ToUint32(x));
  }

  /** The output loop. */
  method WriteOutput(v: Vars) returns (out: array<Byte>)
    ensures fresh(out) && out[..] == S.Output(v.Words())
  {
    out := new Byte[32](_ => 0);
    var hs := [v.a, v.b, v.c, v.d, v.e, v.f, v.g, v.h];
    var x := v.Words();
    ghost var words := [x.a, x.b, x.c, x.d, x.e, x.f, x.g, x.h];
    assert forall j :: 0 <= j < 8 ==> words[j] == ToUint32(hs[j]);
    hide S.BigEndian, ToUint32, Shr, S.Output;
    for j := 0 to 8
      invariant out[..4 * j] == OutputUpTo(words, j)
    {
      ShiftByNothing(hs[j]);
      S.BigEndianLength(ToUint32(hs[j]), 4);
      SetUint32(out, 4 * j, Shr(hs[j], 0));
      assert out[..4 * (j + 1)] == out[..4 * j] + S.BigEndian(words[j], 4);
    }
    OutputIsFips(x);
    assert out[..] == out[..4 * 8];
  }

  lemma InitialWords(v: Vars)
    requires v == Vars(0x6a09e667, 0xbb67ae85, 0x3c6ef372, 0xa54ff53a, 0x510e527f, 0x9b05688c, 0x1f83d9ab, 0x5be0cd19)
    ensures v.Words() == S.H0
  {
  }

  lemma DigestUnfolded(msg: seq<Byte>)
    ensures |S.Pad(msg)| % 64 == 0
    ensures S.Digest(msg) == S.Output(S.Intermediate(S.Pad(msg), |S.Pad(msg)| / 64))
    ensures S.Intermediate(S.Pad(msg), 0) == S.H0
  {
    S.PadIsWholeBlocks(msg);
  }

  lemma IntermediateStep(m: seq<Byte>, n: nat)
    requires 64 * n + 64 <= |m|
    ensures S.Intermediate(m, 0) == S.H0
    ensures S.Intermediate(m, n + 1) == S.BlockHash(S.Intermediate(m, n), m, 64 * n)
  {
  }

  /** The worker's digest of every message short enough for its arithmetic is SHA-256. */
  method Sha256(msg: seq<Byte>) returns (out: seq<Byte>)
    requires |msg| + 8 < TWO31
    ensures out == S.Digest(msg)
  {
    hide *;
    var v := Vars(0x6a09e667, 0xbb67ae85, 0x3c6ef372, 0xa54ff53a, 0x510e527f, 0x9b05688c, 0x1f83d9ab, 0x5be0cd19);
    InitialWords(v);
    ghost var padded := S.Pad(msg);
    DigestUnfolded(msg);
    var m := PadMessage(msg);
    var w := new Word[64](_ => 0);
    var off := 0;
    while off < m.Length
      invariant 0 <= off <= m.Length && off % 64 == 0
      invariant m[..] == padded
      invariant v.Words() == S.Intermediate(padded, off / 64)
    {
      IntermediateStep(padded, off / 64);
      v := HashBlock(m, off, w, v);
      off := off + 64;
    }
    var bytes := WriteOutput(v);
    out := bytes[..];
  }

  // ---- the search ----

  /** `leadingZeroBits` of the worker. */
  method LeadingZeroBits(d: seq<Byte>) returns (bits: nat)
    ensures CountsZeros(d, bits)
  {
    bits := 0;
    for i := 0 to |d|
      invariant bits == 8 * i
      invariant forall j :: 0 <= j < i ==> d[j] == 0
    {
      if d[i] == 0 {
        bits := bits + 8;
      } else {
        var zeros := ZerosOfByte(d[i]);
        FirstByteCounts(d, i, zeros);
        bits := bits + zeros;
        return;
      }
    }
    AllZeroCounts(d);
  }

  /** `String(n)` of a natural number, as bytes. */
  function Decimal(n: nat): (s: seq<Byte>)
    ensures |s| > 0
  {
    if n < 10 then [48 + n] else Decimal(n / 10) + [48 + n % 10]
  }

  lemma {:induction false} DecimalLength(m: nat, n: nat)
    requires m <= n
    ensures |Decimal(m)| <= |Decimal(n)|
  {
    if m >= 10 {
      DecimalLength(m / 10, n / 10);
    }
  }

  /** The number a run of decimal digits stands for. */
  function DecimalValue(s: seq<Byte>): int {
    if s == [] then 0 else 10 * DecimalValue(s[..|s| - 1]) + s[|s| - 1] - 48
  }

  /** The digits of the number, without leading zeros. */
  lemma {:induction false} DecimalReads(n: nat)
    ensures DecimalValue(Decimal(n)) == n && forall b <- Decimal(n) :: 48 <= b <= 57
    ensures Decimal(n)[0] == 48 ==> n == 0 && Decimal(n) == [48]
  {
    if n < 10 {
      assert Decimal(n)[..0] == [];
    } else {
      DecimalReads(n / 10);
      assert Decimal(n)[..|Decimal(n)| - 1] == Decimal(n / 10);
    }
  }

  /** `"<seed>:<nonce>"`. */
  function Message(seed: seq<Byte>, nonceText: seq<Byte>): seq<Byte> {
    seed + [58] + nonceText
  }

  /** What the gate asks of an answer: the SHA-256 digest starts with enough zero bits. */
  predicate Answers(seed: seq<Byte>, nonceText: seq<Byte>, difficulty: nat) {
    StartsWithZeros(S.Digest(Message(seed, nonceText)), difficulty)
  }

  lemma DigestLength(msg: seq<Byte>)
    ensures |S.Digest(msg)| == 32
  {
    S.PadIsWholeBlocks(msg);
    var v := S.Intermediate(S.Pad(msg), |S.Pad(msg)| / 64);
    S.BigEndianLength(v.a, 4);
    S.BigEndianLength(v.b, 4);
    S.BigEndianLength(v.c, 4);
    S.BigEndianLength(v.d, 4);
    S.BigEndianLength(v.e, 4);
    S.BigEndianLength(v.f, 4);
    S.BigEndianLength(v.g, 4);
    S.BigEndianLength(v.h, 4);
    hide S.BigEndian, S.Intermediate, S.Pad;
  }

  /** An answer: the digest of seed, colon and nonce, read as a number of 256 bits, is below
      2^(256 - difficulty). */
  lemma AnswerInNumbers(seed: seq<Byte>, nonceText: seq<Byte>, difficulty: nat)
    ensures Answers(seed, nonceText, difficulty) <==>
              difficulty <= 256 && Value(S.Digest(seed + [0x3a] + nonceText)) < Pow2(256 - difficulty)
  {
    hide S.Digest, Value, Pow2;
    DigestLength(seed + [0x3a] + nonceText);
    assert Message(seed, nonceText) == seed + [0x3a] + nonceText;
  }

  /** The search loop. It has no bound of its own, so an answer must exist for it to end; the
      ghost `known` is one. The nonce reported is the least answer of all. */
  method Search(seed: seq<Byte>, difficulty: nat, ghost known: nat) returns (nonce: nat, hashes: nat)
    requires Answers(seed, Decimal(known), difficulty)
    requires |Message(seed, Decimal(known))| + 8 < TWO31
    ensures Answers(seed, Decimal(nonce), difficulty)
    ensures forall n: nat :: n < nonce ==> !Answers(seed, Decimal(n), difficulty)
    ensures hashes == nonce + 1
  {
    hide S.Digest, StartsWithZeros;
    nonce, hashes := 0, 0;
    while true
      invariant nonce <= known && hashes == nonce
      invariant forall n: nat :: n < nonce ==> !Answers(seed, Decimal(n), difficulty)
      decreases known - nonce
    {
      hashes := hashes + 1;
      DecimalLength(nonce, known);
      var digest := Sha256(Message(seed, Decimal(nonce)));
      var bits := LeadingZeroBits(digest);
      if bits >= difficulty {
        return;
      }
      assert nonce != known;
      nonce := nonce + 1;
    }
  }
}
