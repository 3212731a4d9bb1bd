/** JavaScript's 32-bit integer operators on numbers that are integers.

    Every operand is first taken modulo 2^32; every result but that of `>>>` is the signed
    reading of a 32-bit word. */
module JsNumber {

  const TWO31 := 0x8000_0000
  const TWO32 := 0x1_0000_0000

  type Word = x: int | 0 <= x < TWO32

  type Byte = x: int | 0 <= x < 256

  function Pow2(n: nat): (p: nat)
    ensures p > 0
  {
    if n == 0 then 1 else 2 * Pow2(n - 1)
  }

  lemma {:induction false} ProductMonotone(a: nat, b: nat, c: nat)
    requires a <= b
    ensures a * c <= b * c
  {
    if a < b {
      ProductMonotone(a, b - 1, c);
    }
  }

  lemma {:induction false} Pow2Monotone(a: nat, b: nat)
    requires a <= b
    ensures Pow2(a) <= Pow2(b)
  {
    if a < b {
      Pow2Monotone(a, b - 1);
    }
  }

  function ToUint32(x: int): Word { x % TWO32 }

  function ToInt32(x: int): int {
    var u := ToUint32(x);
    if u >= TWO31 then u - TWO32 else u
  }

  datatype BitOp = And | Or | Xor
  {
    function Apply(a: nat, b: nat): nat {
      match this
      case And => if a == 1 && b == 1 then 1 else 0
      case Or => if a == 1 || b == 1 then 1 else 0
      case Xor => if a == b then 0 else 1
    }
  }

  /** A bitwise operator on natural numbers, bit by bit from the lowest. */
  function Bitwise(op: BitOp, a: nat, b: nat): nat
    decreases a + b
  {
    if a == 0 && b == 0 then 0 else 2 * Bitwise(op, a / 2, b / 2) + op.Apply(a % 2, b % 2)
  }

  lemma {:induction false} BitwiseRange(op: BitOp, a: nat, b: nat, k: nat)
    requires a < Pow2(k) && b < Pow2(k)
    ensures Bitwise(op, a, b) < Pow2(k)
  {
    if k > 0 && (a != 0 || b != 0) {
      BitwiseRange(op, a / 2, b / 2, k - 1);
    }
  }

  /** Or-ing in bits above the ones already there is addition. */
  lemma {:induction false} OrIsAddition(a: nat, d: nat, k: nat)
    requires a < Pow2(k)
    ensures Bitwise(Or, a, d * Pow2(k)) == a + d * Pow2(k)
  {
    if k == 0 {
      OrZero(d);
    } else {
      var e := d * Pow2(k - 1);
      assert d * Pow2(k) == 2 * e;
      OrIsAddition(a / 2, d, k - 1);
    }
  }

  lemma {:induction false} OrZero(d: nat)
    ensures Bitwise(Or, 0, d) == d
  {
    if d > 0 {
      OrZero(d / 2);
    }
  }

  lemma WordIs32Bits()
    ensures Pow2(32) == TWO32
  {
    assert Pow2(8) == 256;
    assert Pow2(16) == 0x1_0000;
    assert Pow2(24) == 0x100_0000;
  }

  function WordOp(op: BitOp, x: Word, y: Word): Word {
    WordIs32Bits();
    BitwiseRange(op, x, y, 32);
    Bitwise(op, x, y)
  }

  /** `n` one-place shifts, zeros coming in from the left. */
  function ShiftRight(x: Word, n: nat): Word {
    if n == 0 then x else ShiftRight(x, n - 1) / 2
  }

  /** `n` one-place shifts, the top bit falling off. */
  function ShiftLeft(x: Word, n: nat): Word {
    if n == 0 then x else (2 * ShiftLeft(x, n - 1)) % TWO32
  }

  /** Halving towards minus infinity. */
  function Halved(x: int, n: nat): int {
    if n == 0 then x else Halved(x, n - 1) / 2
  }

  // ---- the operators of the language ----

  /** `a & b`, `a | b`, `a ^ b`. */
  function Bits(op: BitOp, a: int, b: int): int {
    ToInt32(WordOp(op, ToUint32(a), ToUint32(b)))
  }

  /** `~a`. */
  function Not(a: int): int {
    ToInt32(TWO32 - 1 - ToUint32(a))
  }

  /** `a << n`. */
  function Shl(a: int, n: nat): int {
    ToInt32(ShiftLeft(ToUint32(a), n % 32))
  }

  /** `a >> n`, which keeps the sign. */
  function Sar(a: int, n: nat): int {
    Halved(ToInt32(a), n % 32)
  }

  /** `a >>> n`. */
  function Shr(a: int, n: nat): int {
    ShiftRight(ToUint32(a), n % 32)
  }

  // ---- signed results read back as words ----

  lemma SignedReading(x: int)
    ensures ToUint32(ToInt32(x)) == ToUint32(x)
  {
  }

  lemma BitWords(op: BitOp, a: int, b: int)
    ensures ToUint32(Bits(op, a, b)) == WordOp(op, ToUint32(a), ToUint32(b))
  {
    SignedReading(WordOp(op, ToUint32(a), ToUint32(b)));
  }

  lemma WordReading(w: Word)
    ensures ToUint32(w) == w
  {
  }

  lemma ShiftWords(x: int, n: nat)
    requires n < 32
    ensures ToUint32(Shr(x, n)) == Shr(x, n) == ShiftRight(ToUint32(x), n)
    ensures ToUint32(Shl(x, n)) == ShiftLeft(ToUint32(x), n)
  {
    assert n % 32 == n;
    WordReading(ShiftRight(ToUint32(x), n));
    SignedReading(ShiftLeft(ToUint32(x), n));
    WordReading(ShiftLeft(ToUint32(x), n));
  }

  // ---- what the operators are, in numbers ----

  lemma {:induction false} HalvesOfHalves(x: int, n: nat)
    ensures (x / 2) / Pow2(n) == x / Pow2(n + 1) == (x / Pow2(n)) / 2
  {
    var p := Pow2(n);
    var q := x / (2 * p);
    var r := x - 2 * p * q;
    assert 0 <= r < 2 * p;
    InHalf(x, p, q, r);
    InParts(x, p, q, r);
  }

  lemma InHalf(x: int, p: nat, q: int, r: int)
    requires p > 0 && x == 2 * p * q + r && 0 <= r < 2 * p
    ensures (x / 2) / p == q
  {
    var pq := p * q;
    assert x == 2 * pq + r && x / 2 == pq + r / 2;
    Quotient(pq + r / 2, p, q, r / 2);
  }

  lemma InParts(x: int, p: nat, q: int, r: int)
    requires p > 0 && x == 2 * p * q + r && 0 <= r < 2 * p
    ensures (x / p) / 2 == q
  {
    var (t: int, u: int) := if r < p then (0, r) else (1, r - p);
    assert p * (2 * q + t) == 2 * p * q + p * t;
    Quotient(x, p, 2 * q + t, u);
  }

  lemma Quotient(x: int, p: nat, q: int, r: int)
    requires p > 0 && x == p * q + r && 0 <= r < p
    ensures x / p == q
  {
    var d := x / p - q;
    assert x == p * (x / p) + x % p;
    assert p * d == r - x % p;
    assert d * p == p * d && (-d) * p == -(p * d);
    if d >= 1 {
      ProductMonotone(1, d, p);
    } else if d <= -1 {
      ProductMonotone(1, -d, p);
    }
  }

  /** The bit of a number at place `k`. */
  function Bit(x: nat, k: nat): nat {
    (x / Pow2(k)) % 2
  }

  lemma BitwiseHalves(op: BitOp, a: nat, b: nat)
    ensures Bitwise(op, a, b) / 2 == Bitwise(op, a / 2, b / 2)
    ensures Bitwise(op, a, b) % 2 == op.Apply(a % 2, b % 2)
  {
  }

  lemma {:induction false} BitwiseApplies(op: BitOp, a: nat, b: nat, k: nat)
    ensures Bit(Bitwise(op, a, b), k) == op.Apply(Bit(a, k), Bit(b, k))
  {
    BitwiseHalves(op, a, b);
    if k == 0 {
      assert Pow2(0) == 1;
    } else {
      BitwiseApplies(op, a / 2, b / 2, k - 1);
      hide Pow2, Bitwise, BitOp.Apply;
      HalvesOfHalves(a, k - 1);
      HalvesOfHalves(b, k - 1);
      HalvesOfHalves(Bitwise(op, a, b), k - 1);
    }
  }

  /** Place by place: 1 where both are, where either is, where one is and the other is not. */
  lemma BitwiseByPlace(a: nat, b: nat, k: nat)
    ensures Bit(Bitwise(And, a, b), k) == if Bit(a, k) == 1 && Bit(b, k) == 1 then 1 else 0
    ensures Bit(Bitwise(Or, a, b), k) == if Bit(a, k) == 1 || Bit(b, k) == 1 then 1 else 0
    ensures Bit(Bitwise(Xor, a, b), k) == if Bit(a, k) != Bit(b, k) then 1 else 0
  {
    BitwiseApplies(And, a, b, k);
    BitwiseApplies(Or, a, b, k);
    BitwiseApplies(Xor, a, b, k);
    hide Bit, Bitwise;
  }

  /** Shifting right divides and rounds down, for words and for signed numbers. */
  lemma {:induction false} ShiftsDivide(x: Word, y: int, n: nat)
    ensures ShiftRight(x, n) == x / Pow2(n)
    ensures Halved(y, n) == y / Pow2(n)
  {
    if n == 0 {
      assert Pow2(0) == 1;
    } else {
      ShiftsDivide(x, y, n - 1);
      HalvesOfHalves(x, n - 1);
      HalvesOfHalves(y, n - 1);
    }
  }

  /** The signed reading is the one number of 32 bits and a sign that differs by whole turns. */
  lemma SignedIsCongruent(x: int)
    ensures -0x8000_0000 <= ToInt32(x) <= 0x7fff_ffff && (ToInt32(x) - x) % 0x1_0000_0000 == 0
  {
  }

  lemma NotIsMinusAndLess(a: int)
    requires -0x8000_0000 <= a <= 0x7fff_ffff
    ensures Not(a) == -a - 1
  {
  }
}
