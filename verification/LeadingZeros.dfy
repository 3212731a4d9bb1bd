/** What it means for a digest to start with a number of zero bits. */
module LeadingZeros {
  import opened JsNumber

  /** A byte string read as a big-endian number. */
  function Value(d: seq<Byte>): nat {
    if d == [] then 0 else Value(d[..|d| - 1]) * 256 + d[|d| - 1]
  }

  /** At least `k` leading zero bits. */
  predicate StartsWithZeros(d: seq<Byte>, k: nat) {
    k <= 8 * |d| && Value(d) < Pow2(8 * |d| - k)
  }

  /** `bits` is the number of leading zero bits: it reaches exactly the thresholds the value is under. */
  ghost predicate CountsZeros(d: seq<Byte>, bits: nat) {
    && bits <= 8 * |d|
    && forall k: nat :: StartsWithZeros(d, k) <==> k <= bits
  }

  lemma Pow2Zero()
    ensures Pow2(0) == 1
  {
  }

  lemma {:induction false} Pow2Bytes(n: nat)
    ensures Pow2(8 * (n + 1)) == 256 * Pow2(8 * n)
  {
    assert Pow2(8 * n + 4) == 16 * Pow2(8 * n) by {
      assert Pow2(8 * n + 2) == 4 * Pow2(8 * n);
    }
    assert Pow2(8 * n + 6) == 4 * Pow2(8 * n + 4);
  }

  /** A value between two powers of two has its leading zeros counted by the larger one. */
  lemma CountFromBounds(d: seq<Byte>, bits: nat)
    requires bits < 8 * |d|
    requires Pow2(8 * |d| - bits - 1) <= Value(d) < Pow2(8 * |d| - bits)
    ensures CountsZeros(d, bits)
  {
    forall k: nat ensures StartsWithZeros(d, k) <==> k <= bits {
      if k <= bits {
        Pow2Monotone(8 * |d| - bits, 8 * |d| - k);
      } else if k <= 8 * |d| {
        Pow2Monotone(8 * |d| - k, 8 * |d| - bits - 1);
      }
    }
  }

  lemma {:induction false} ZerosAreZero(d: seq<Byte>)
    requires forall j :: 0 <= j < |d| ==> d[j] == 0
    ensures Value(d) == 0
  {
    if d != [] {
      ZerosAreZero(d[..|d| - 1]);
    }
  }

  lemma AllZeroCounts(d: seq<Byte>)
    requires forall j :: 0 <= j < |d| ==> d[j] == 0
    ensures CountsZeros(d, 8 * |d|)
  {
    ZerosAreZero(d);
  }

  /** The first byte that is not zero settles the value up to one unit of its place. */
  lemma {:induction false} FirstByteBounds(d: seq<Byte>, i: nat, x: nat)
    requires i < |d| && x == d[i] && forall j :: 0 <= j < i ==> d[j] == 0
    ensures x * Pow2(8 * (|d| - 1 - i)) <= Value(d) < (x + 1) * Pow2(8 * (|d| - 1 - i))
  {
    hide Pow2;
    var n := |d| - 1;
    var init := d[..n];
    if i == n {
      ZerosAreZero(init);
      Pow2Zero();
    } else {
      FirstByteBounds(init, i, x);
      Pow2Bytes(n - 1 - i);
      NextByteBounds(x, Pow2(8 * (n - 1 - i)), Value(init), d[n]);
    }
  }

  lemma NextByteBounds(x: nat, p: nat, v: nat, y: Byte)
    requires x * p <= v < (x + 1) * p
    ensures x * (256 * p) <= v * 256 + y < (x + 1) * (256 * p)
  {
    assert x * (256 * p) == 256 * (x * p);
    assert (x + 1) * (256 * p) == 256 * ((x + 1) * p);
  }

  lemma {:induction false} TopBit(x: nat, k: nat)
    requires x < Pow2(k + 1)
    ensures Bitwise(And, x, Pow2(k)) != 0 <==> x >= Pow2(k)
  {
    var p := Pow2(k);
    assert Pow2(k + 1) == 2 * p;
    BitwiseUnfolds(And, x, p);
    if k == 0 {
      BitwiseUnfolds(And, 0, 0);
    } else {
      assert p == 2 * Pow2(k - 1) && p / 2 == Pow2(k - 1) && p % 2 == 0;
      assert x / 2 < Pow2(k);
      hide Bitwise, Pow2;
      TopBit(x / 2, k - 1);
    }
  }

  lemma BitwiseUnfolds(op: BitOp, a: nat, b: nat)
    ensures Bitwise(op, a, b)
            == if a == 0 && b == 0 then 0 else 2 * Bitwise(op, a / 2, b / 2) + op.Apply(a % 2, b % 2)
  {
  }

  /** The inner loop: walk the mask down one byte to its highest set bit. */
  method ZerosOfByte(x: Byte) returns (bits: nat)
    requires x > 0
    ensures bits < 8 && Pow2(7 - bits) <= x < Pow2(8 - bits)
  {
    bits := 0;
    var mask := 0x80;
    assert Pow2(7) == 0x80 && Pow2(8) == 0x100;
    while mask > 0
      invariant bits <= 8
      invariant bits < 8 ==> mask == Pow2(7 - bits)
      invariant x < Pow2(8 - bits)
    {
      TopBit(x, 7 - bits);
      if Bitwise(And, x, mask) != 0 {
        return;
      }
      bits := bits + 1;
      mask := mask / 2;
    }
  }

  lemma FirstByteCounts(d: seq<Byte>, i: nat, zeros: nat)
    requires i < |d| && forall j :: 0 <= j < i ==> d[j] == 0
    requires zeros < 8 && Pow2(7 - zeros) <= d[i] < Pow2(8 - zeros)
    ensures CountsZeros(d, 8 * i + zeros)
  {
    hide Pow2, Value;
    var rest := 8 * (|d| - 1 - i);
    var x: nat := d[i];
    FirstByteBounds(d, i, x);
    Pow2Sum(7 - zeros, rest);
    Pow2Sum(8 - zeros, rest);
    ProductMonotone(Pow2(7 - zeros), x, Pow2(rest));
    ProductMonotone(x + 1, Pow2(8 - zeros), Pow2(rest));
    CountFromBounds(d, 8 * i + zeros);
  }

  lemma {:induction false} Pow2Sum(a: nat, b: nat)
    ensures Pow2(a) * Pow2(b) == Pow2(a + b)
  {
    if a > 0 {
      Pow2Sum(a - 1, b);
      assert Pow2(a) * Pow2(b) == 2 * (Pow2(a - 1) * Pow2(b));
    }
  }
}
