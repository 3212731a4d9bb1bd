/** How hard a challenge may get and how long it lives. */
module PowBudget {
  import opened JsNumber

  const SLOW_BROWSER_HASHES_PER_SEC := 100_000

  /** The configuration keeps the base difficulty at 8 or more. */
  type BaseBits = b: nat | b > 0 witness 8

  /** `Math.round` of a non-negative quotient. */
  function RoundedRatio(a: nat, b: nat): nat
    requires b > 0
  {
    (2 * a + b) / (2 * b)
  }

  function TtlSecondsFor(bits: nat, baseBits: BaseBits, baseTtl: nat): nat {
    if bits <= baseBits then baseTtl else RoundedRatio(baseTtl * bits, baseBits)
  }

  /** The expected `2^bits` hashes take at most half of the challenge's own life. */
  predicate SolvesInHalfItsLife(bits: nat, baseBits: BaseBits, baseTtl: nat, hashesPerSec: nat) {
    2 * Pow2(bits) <= TtlSecondsFor(bits, baseBits, baseTtl) * hashesPerSec
  }

  /** The last difficulty of the unbroken stretch of solvable ones from `bits` on, up to 40. */
  function LastSolvable(bits: nat, baseBits: BaseBits, baseTtl: nat, hashesPerSec: nat): nat
    decreases 40 - bits
  {
    if bits < 40 && SolvesInHalfItsLife(bits + 1, baseBits, baseTtl, hashesPerSec)
    then LastSolvable(bits + 1, baseBits, baseTtl, hashesPerSec)
    else bits
  }

  function SolvableCeiling(baseBits: BaseBits, baseTtl: nat, hashesPerSec: nat): nat {
    if baseBits <= 40 && SolvesInHalfItsLife(baseBits, baseBits, baseTtl, hashesPerSec)
    then LastSolvable(baseBits, baseBits, baseTtl, hashesPerSec)
    else baseBits
  }

  method SolvableCeilingBits(baseBits: BaseBits, baseTtl: nat, hashesPerSec: nat) returns (best: nat)
    ensures best == SolvableCeiling(baseBits, baseTtl, hashesPerSec)
  {
    best := baseBits;
    var bits := baseBits;
    while bits <= 40
      invariant baseBits <= bits <= 41 || baseBits > 40
      invariant bits == baseBits ==> best == baseBits
      invariant bits > baseBits ==>
                  && best == bits - 1 <= 40
                  && SolvesInHalfItsLife(baseBits, baseBits, baseTtl, hashesPerSec)
                  && LastSolvable(best, baseBits, baseTtl, hashesPerSec)
                     == SolvableCeiling(baseBits, baseTtl, hashesPerSec)
      decreases 41 - bits
    {
      if !SolvesInHalfItsLife(bits, baseBits, baseTtl, hashesPerSec) {
        break;
      }
      best := bits;
      bits := bits + 1;
    }
  }

  /** A longer life never falls behind the doubling of the work: rounding included, one more bit
      at most doubles the TTL. */
  lemma TtlAtMostDoubles(bits: nat, baseBits: BaseBits, baseTtl: nat)
    requires baseBits <= bits
    ensures TtlSecondsFor(bits + 1, baseBits, baseTtl) <= 2 * TtlSecondsFor(bits, baseBits, baseTtl)
  {
    var t, b := baseTtl, baseBits;
    var q, next := TtlSecondsFor(bits, b, t), TtlSecondsFor(bits + 1, b, t);
    TtlBounds(bits, b, t);
    TtlBounds(bits + 1, b, t);
    TtlIsAtLeastBase(bits, b, t);
    assert t * (bits + 1) == t * bits + t;
    TwiceIsEnough(b, q, next, t, t * bits);
  }

  lemma TwiceIsEnough(b: nat, q: nat, next: nat, t: nat, life: nat)
    requires b > 0 && b * q >= t
    requires 2 * life < 2 * (b * q) + b && 2 * (b * next) <= 2 * (life + t) + b
    ensures next <= 2 * q
  {
    assert (2 * q + 1) * b == 2 * (b * q) + b;
    if next > 2 * q {
      ProductMonotone(2 * q + 1, next, b);
    }
  }

  /** Rounding moves the exact life by at most half a second, either way. */
  lemma TtlBounds(bits: nat, baseBits: BaseBits, baseTtl: nat)
    requires baseBits <= bits
    ensures var q := TtlSecondsFor(bits, baseBits, baseTtl);
            && 2 * (baseBits * q) <= 2 * (baseTtl * bits) + baseBits
            && 2 * (baseTtl * bits) < 2 * (baseBits * q) + baseBits
  {
    if bits > baseBits {
      var a, d := 2 * (baseTtl * bits) + baseBits, 2 * baseBits;
      var q := a / d;
      assert a == d * q + a % d;
      assert d * q == 2 * (baseBits * q);
    }
  }

  lemma TtlIsAtLeastBase(bits: nat, b: nat, t: nat)
    requires 1 <= b <= bits
    ensures b * TtlSecondsFor(bits, b, t) >= t
  {
    var q := TtlSecondsFor(bits, b, t);
    TtlBounds(bits, b, t);
    ProductMonotone(b, bits, t);
    assert bits * t == t * bits && b * t == t * b;
    if t > 0 {
      ProductMonotone(1, b, t - 1);
      assert b * (t - 1) == t * b - b;
    }
  }

  /** So once one difficulty fails every harder one fails too: the search may stop there. */
  lemma FirstFailureIsFinal(bits: nat, baseBits: BaseBits, baseTtl: nat, hashesPerSec: nat)
    requires baseBits <= bits
    requires SolvesInHalfItsLife(bits + 1, baseBits, baseTtl, hashesPerSec)
    ensures SolvesInHalfItsLife(bits, baseBits, baseTtl, hashesPerSec)
  {
    TtlAtMostDoubles(bits, baseBits, baseTtl);
    HalvedBudget(TtlSecondsFor(bits + 1, baseBits, baseTtl), TtlSecondsFor(bits, baseBits, baseTtl), hashesPerSec);
  }

  lemma HalvedBudget(next: nat, q: nat, rate: nat)
    requires next <= 2 * q
    ensures next * rate <= 2 * (q * rate)
  {
    assert (2 * q - next) * rate >= 0;
    assert (2 * q - next) * rate == 2 * (q * rate) - next * rate;
  }

  lemma {:induction false} SolvableBelow(bits: nat, top: nat, baseBits: BaseBits, baseTtl: nat, hashesPerSec: nat)
    requires baseBits <= bits <= top && SolvesInHalfItsLife(top, baseBits, baseTtl, hashesPerSec)
    ensures SolvesInHalfItsLife(bits, baseBits, baseTtl, hashesPerSec)
  {
    if bits < top {
      FirstFailureIsFinal(top - 1, baseBits, baseTtl, hashesPerSec);
      SolvableBelow(bits, top - 1, baseBits, baseTtl, hashesPerSec);
    }
  }

  lemma {:induction false} LastSolvableSpec(bits: nat, baseBits: BaseBits, baseTtl: nat, hashesPerSec: nat)
    requires bits <= 40 && SolvesInHalfItsLife(bits, baseBits, baseTtl, hashesPerSec)
    ensures var last := LastSolvable(bits, baseBits, baseTtl, hashesPerSec);
            && bits <= last <= 40 && SolvesInHalfItsLife(last, baseBits, baseTtl, hashesPerSec)
            && (last < 40 ==> !SolvesInHalfItsLife(last + 1, baseBits, baseTtl, hashesPerSec))
    decreases 40 - bits
  {
    if bits < 40 && SolvesInHalfItsLife(bits + 1, baseBits, baseTtl, hashesPerSec) {
      LastSolvableSpec(bits + 1, baseBits, baseTtl, hashesPerSec);
    }
  }

  /** The ceiling is the true maximum: from a solvable base, the solvable difficulties up to 40
      are exactly those from the base to the ceiling. */
  lemma CeilingIsTheMaximum(bits: nat, baseBits: BaseBits, baseTtl: nat, hashesPerSec: nat)
    requires baseBits <= bits <= 40 && SolvesInHalfItsLife(baseBits, baseBits, baseTtl, hashesPerSec)
    ensures SolvesInHalfItsLife(bits, baseBits, baseTtl, hashesPerSec)
            <==> bits <= SolvableCeiling(baseBits, baseTtl, hashesPerSec)
  {
    var ceiling := SolvableCeiling(baseBits, baseTtl, hashesPerSec);
    LastSolvableSpec(baseBits, baseBits, baseTtl, hashesPerSec);
    if bits <= ceiling {
      SolvableBelow(bits, ceiling, baseBits, baseTtl, hashesPerSec);
    } else if SolvesInHalfItsLife(bits, baseBits, baseTtl, hashesPerSec) {
      SolvableBelow(ceiling + 1, bits, baseBits, baseTtl, hashesPerSec);
    }
  }

  lemma CeilingIsAtLeastBase(baseBits: BaseBits, baseTtl: nat, hashesPerSec: nat)
    ensures SolvableCeiling(baseBits, baseTtl, hashesPerSec) >= baseBits
  {
    if baseBits <= 40 && SolvesInHalfItsLife(baseBits, baseBits, baseTtl, hashesPerSec) {
      LastSolvableSpec(baseBits, baseBits, baseTtl, hashesPerSec);
    }
  }

  // ---- in seconds ----

  /** `Math.round(a / b)`. */
  lemma RatioIsRounded(a: nat, b: nat)
    requires b > 0
    ensures RoundedRatio(a, b) == (a as real / b as real + 0.5).Floor
  {
    var q := RoundedRatio(a, b);
    var x := a as real / b as real;
    assert 2 * a + b == 2 * b * q + (2 * a + b) % (2 * b);
    assert x * b as real == a as real;
    RoundedBetween(a, b, q, x);
  }

  lemma RoundedBetween(a: nat, b: nat, q: nat, x: real)
    requires b > 0 && x * b as real == a as real
    requires 2 * b * q <= 2 * a + b < 2 * b * q + 2 * b
    ensures q as real <= x + 0.5 < q as real + 1.0
  {
    var bq := b * q;
    assert 2 * b * q == 2 * bq && bq as real == b as real * q as real;
    assert 2.0 * bq as real <= 2.0 * a as real + b as real < 2.0 * bq as real + 2.0 * b as real;
    Between(b as real, q as real, x, bq as real, a as real);
  }

  lemma Between(b: real, q: real, x: real, bq: real, a: real)
    requires b > 0.0 && bq == b * q && a == x * b
    requires 2.0 * bq <= 2.0 * a + b < 2.0 * bq + 2.0 * b
    ensures q <= x + 0.5 < q + 1.0
  {
    var d := x + 0.5 - q;
    assert b * d == a + 0.5 * b - bq && b * (d - 1.0) == b * d - b;
    SignOfProduct(b, d);
    SignOfProduct(b, d - 1.0);
  }

  lemma SignOfProduct(b: real, d: real)
    requires b > 0.0
    ensures b * d >= 0.0 <==> d >= 0.0
  {
    if d < 0.0 {
      assert b * (-d) > 0.0 && b * (-d) == -(b * d);
    }
  }

  /** Expected hashes over a rate of hashes take at most half the life. */
  predicate Comfortable(bits: nat, life: nat, hashesPerSec: nat)
    requires hashesPerSec > 0
  {
    Pow2(bits) as real / hashesPerSec as real <= 0.5 * life as real
  }

  lemma SolvesInSeconds(bits: nat, baseBits: BaseBits, baseTtl: nat, hashesPerSec: nat)
    requires hashesPerSec > 0
    ensures SolvesInHalfItsLife(bits, baseBits, baseTtl, hashesPerSec)
            <==> Comfortable(bits, TtlSecondsFor(bits, baseBits, baseTtl), hashesPerSec)
  {
    var (life, n) := (TtlSecondsFor(bits, baseBits, baseTtl), Pow2(bits));
    var (rn: real, rr: real, rl: real) := (n as real, hashesPerSec as real, life as real);
    var s := rn / rr;
    assert s * rr == rn;
    assert (life * hashesPerSec) as real == rl * rr;
    CancelRate(s, rr, rl);
  }

  lemma CancelRate(s: real, r: real, l: real)
    requires r > 0.0
    ensures 2.0 * (s * r) <= l * r <==> s <= 0.5 * l
  {
    assert r * (l - 2.0 * s) == l * r - 2.0 * (s * r);
    SignOfProduct(r, l - 2.0 * s);
  }

  /** How long a challenge lives, to the nearest second; and which difficulties a browser of 100 000
      hashes a second is expected to solve in half of that, up to the ceiling and no further. */
  lemma BudgetInSeconds(bits: nat, baseBits: BaseBits, baseTtl: nat)
    ensures TtlSecondsFor(bits, baseBits, baseTtl)
         == if bits <= baseBits then baseTtl
            else ((baseTtl * bits) as real / baseBits as real + 0.5).Floor
    ensures baseBits <= bits <= 40 && Comfortable(baseBits, baseTtl, 100_000) ==>
              (Comfortable(bits, TtlSecondsFor(bits, baseBits, baseTtl), 100_000)
               <==> bits <= SolvableCeiling(baseBits, baseTtl, SLOW_BROWSER_HASHES_PER_SEC))
    ensures !Comfortable(baseBits, baseTtl, 100_000) ==>
              SolvableCeiling(baseBits, baseTtl, SLOW_BROWSER_HASHES_PER_SEC) == baseBits
  {
    RatioIsRounded(baseTtl * bits, baseBits);
    SolvesInSeconds(bits, baseBits, baseTtl, 100_000);
    SolvesInSeconds(baseBits, baseBits, baseTtl, 100_000);
    hide Comfortable, SolvesInHalfItsLife, RoundedRatio, SolvableCeiling;
    if baseBits <= bits <= 40 && Comfortable(baseBits, baseTtl, 100_000) {
      CeilingIsTheMaximum(bits, baseBits, baseTtl, 100_000);
    }
    UnsolvableBase(baseBits, baseTtl, 100_000);
  }

  lemma UnsolvableBase(baseBits: BaseBits, baseTtl: nat, hashesPerSec: nat)
    ensures !SolvesInHalfItsLife(baseBits, baseBits, baseTtl, hashesPerSec) ==>
              SolvableCeiling(baseBits, baseTtl, hashesPerSec) == baseBits
  {
  }
}
