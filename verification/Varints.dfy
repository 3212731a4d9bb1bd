/** Varints and 32-bit lengths, as the hand-written protobuf parsers read them.

    A cursor may leave the buffer on either side, because a length is a signed 32-bit number.
    Reading outside gives `undefined`, which every bitwise operator takes as 0. */
module Varints {
  import opened Wrappers
  import opened JsNumber

  function At(buf: seq<Byte>, i: int): Byte {
    if 0 <= i < |buf| then buf[i] else 0
  }

  // ---- varints ----

  datatype Read = Truncated | Got(value: int, next: int)

  /** The base-128 number at the cursor, least significant group first. */
  function VarintAt(buf: seq<Byte>, i: int): (r: Read)
    ensures r.Got? ==> r.value >= 0 && i < r.next <= |buf|
    decreases |buf| - i
  {
    if i >= |buf| then Truncated
    else if At(buf, i) < 128 then Got(At(buf, i), i + 1)
    else
      match VarintAt(buf, i + 1)
      case Truncated => Truncated
      case Got(rest, next) => Got(At(buf, i) - 128 + 128 * rest, next)
  }

  /** `len |= (b & 0x7f) << s`: a length accumulated in 32 bits. */
  function OrIn(len: int, b: Byte, s: nat): int {
    Bits(Or, len, Shl(b % 128, s))
  }

  function LengthAt(buf: seq<Byte>, i: int, len: int, s: nat): (r: Read)
    ensures r.Got? ==> i < r.next <= |buf|
    decreases |buf| - i
  {
    if i >= |buf| then Truncated
    else if At(buf, i) < 128 then Got(OrIn(len, At(buf, i), s), i + 1)
    else LengthAt(buf, i + 1, OrIn(len, At(buf, i), s), s + 7)
  }

  method ReadVarint(buf: seq<Byte>, start: int) returns (r: Read)
    ensures r == VarintAt(buf, start)
  {
    var i, v, shift := start, 0, 0;
    assert Pow2(shift) == 1 && VarintAt(buf, start) == Continued(v, shift, VarintAt(buf, i));
    hide Pow2, Bitwise, VarintAt, Continued;
    while true
      invariant 0 <= v < Pow2(shift) && start <= i
      invariant VarintAt(buf, start) == Continued(v, shift, VarintAt(buf, i))
      decreases |buf| - i
    {
      ReadsOn(buf, i, v, shift);
      if i >= |buf| { return Truncated; }
      var b := At(buf, i);
      OrIsAddition(v, b % 128, shift);
      v := Bitwise(Or, v, (b % 128) * Pow2(shift));
      i := i + 1;
      if b < 128 { return Got(v, i); }
      shift := shift + 7;
    }
  }

  /** A number whose low `shift` bits have been read already. */
  function Continued(v: nat, shift: nat, rest: Read): Read {
    match rest
    case Truncated => Truncated
    case Got(x, next) => Got(v + x * Pow2(shift), next)
  }

  lemma SevenMore(shift: nat)
    ensures Pow2(shift + 7) == 128 * Pow2(shift)
  {
    assert Pow2(shift + 2) == 4 * Pow2(shift);
    assert Pow2(shift + 4) == 4 * Pow2(shift + 2);
    assert Pow2(shift + 6) == 4 * Pow2(shift + 4);
  }

  lemma GroupContinues(v: nat, shift: nat, group: nat, rest: Read)
    requires v < Pow2(shift) && group < 128 && (rest.Got? ==> rest.value >= 0)
    ensures v + group * Pow2(shift) < Pow2(shift + 7)
    ensures Continued(v + group * Pow2(shift), shift + 7, rest)
            == (match rest
                case Truncated => Truncated
                case Got(x, next) => Got(v + (group + 128 * x) * Pow2(shift), next))
  {
    SevenMore(shift);
    ProductMonotone(group, 127, Pow2(shift));
    if rest.Got? {
      assert rest.value * (128 * Pow2(shift)) == 128 * rest.value * Pow2(shift);
    }
  }

  /** One turn of the varint loop. */
  lemma ReadsOn(buf: seq<Byte>, i: int, v: nat, shift: nat)
    requires v < Pow2(shift)
    ensures i >= |buf| ==> Continued(v, shift, VarintAt(buf, i)) == Truncated
    ensures i < |buf| ==>
              var b := At(buf, i);
              var v' := v + (b % 128) * Pow2(shift);
              && (b < 128 ==> Continued(v, shift, VarintAt(buf, i)) == Got(v', i + 1))
              && (b >= 128 ==> && v' < Pow2(shift + 7)
                               && Continued(v, shift, VarintAt(buf, i))
                                  == Continued(v', shift + 7, VarintAt(buf, i + 1)))
  {
    hide Pow2, At;
    if i < |buf| {
      var b := At(buf, i);
      if b < 128 {
        assert b % 128 == b;
      } else {
        assert b % 128 == b - 128;
        GroupContinues(v, shift, b - 128, VarintAt(buf, i + 1));
      }
    }
  }

  method ReadLength(buf: seq<Byte>, start: int) returns (r: Read)
    ensures r == LengthAt(buf, start, 0, 0)
  {
    var i, len, s := start, 0, 0;
    while true
      invariant start <= i
      invariant LengthAt(buf, start, 0, 0) == LengthAt(buf, i, len, s)
      decreases |buf| - i
    {
      if i >= |buf| { return Truncated; }
      var b := At(buf, i);
      i := i + 1;
      len := OrIn(len, b, s);
      if b < 128 { return Got(len, i); }
      s := s + 7;
    }
  }

  method SkipVarint(buf: seq<Byte>, start: int) returns (next: Option<int>)
    ensures next == match VarintAt(buf, start) case Truncated => None case Got(_, n) => Some(n)
  {
    var i := start;
    while true
      invariant start <= i
      invariant VarintAt(buf, start).Truncated? <==> VarintAt(buf, i).Truncated?
      invariant VarintAt(buf, start).Got? ==> VarintAt(buf, start).next == VarintAt(buf, i).next
      decreases |buf| - i
    {
      if i >= |buf| { return None; }
      var b := At(buf, i);
      i := i + 1;
      if b < 128 { return Some(i); }
    }
  }

  // ---- a length is the signed 32-bit reading of its varint ----

  lemma {:induction false} ShiftLeftIsProduct(x: Word, n: nat)
    ensures ShiftLeft(x, n) == (x * Pow2(n)) % TWO32
  {
    if n > 0 {
      ShiftLeftIsProduct(x, n - 1);
      var half := x * Pow2(n - 1);
      TwiceTheHalf(x, Pow2(n - 1));
      DoubledRemainder(half);
      hide ShiftLeft;
      hide Pow2;
      assert ShiftLeft(x, n) == (2 * (half % TWO32)) % TWO32;
    }
  }

  lemma TwiceTheHalf(x: nat, p: nat)
    ensures x * (2 * p) == 2 * (x * p)
  {
  }

  lemma DoubledRemainder(y: nat)
    ensures (2 * (y % TWO32)) % TWO32 == (2 * y) % TWO32
  {
    SameRemainder(2 * (y % TWO32), 2 * (y / TWO32));
  }

  lemma SameRemainder(a: nat, turns: nat)
    ensures (a + TWO32 * turns) % TWO32 == a % TWO32
  {
    var q := a / TWO32;
    assert a + TWO32 * turns == TWO32 * (q + turns) + a % TWO32;
  }

  lemma GroupPowers()
    ensures Pow2(0) == 1 && Pow2(7) == 128 && Pow2(14) == 0x4000 && Pow2(21) == 0x20_0000 && Pow2(28) == 0x1000_0000
  {
    SevenMore(0);
    SevenMore(7);
    SevenMore(14);
    SevenMore(21);
  }

  /** The bits of a group that fit in 32 bits at its place. */
  function Kept(g: nat, s: nat): nat {
    if s == 28 then g % 16 else g
  }

  function TurnedOver(g: nat, s: nat): nat {
    if s == 28 then g / 16 else 0
  }

  /** The places the five groups of a 32-bit length go to. */
  predicate GroupPlace(s: nat, p: nat) {
    (s == 0 && p == 1) || (s == 7 && p == 128) || (s == 14 && p == 0x4000) || (s == 21 && p == 0x20_0000)
    || (s == 28 && p == 0x1000_0000)
  }

  lemma KeptBits(g: nat, s: nat, p: nat)
    requires g < 128 && GroupPlace(s, p)
    ensures (g * p) % TWO32 == Kept(g, s) * p <= TWO32 - p
    ensures g * p == Kept(g, s) * p + TWO32 * TurnedOver(g, s)
  {
    if s == 28 {
      TopGroup(g);
    } else {
      ProductMonotone(g, 127, p);
    }
  }

  lemma TopGroup(g: nat)
    requires g < 128
    ensures var p := 0x1000_0000;
            (g * p) % TWO32 == (g % 16) * p <= TWO32 - p && g * p == (g % 16) * p + TWO32 * (g / 16)
  {
    var kept, turns := g % 16, g / 16;
    SameRemainder(kept * 0x1000_0000, turns);
  }

  lemma GroupShifted(g: nat, s: nat, p: nat)
    requires g < 128 && GroupPlace(s, p) && p == Pow2(s)
    ensures ToUint32(Shl(g, s)) == Kept(g, s) * p
  {
    hide Kept, TurnedOver, Pow2, ShiftLeft;
    assert s < 32;
    hide GroupPlace;
    ShiftWords(g, s);
    ShiftLeftIsProduct(g, s);
    KeptBits(g, s, p);
    WordReading(g);
  }

  /** Or-ing in one group at its place is addition, read back as a signed 32-bit number. */
  lemma OrInAddsGroup(v: nat, b: Byte, s: nat)
    requires GroupPlace(s, Pow2(s)) && v < Pow2(s)
    ensures OrIn(v, b, s) == ToInt32(v + (b % 128) * Pow2(s))
  {
    hide *;
    var g, p := b % 128, Pow2(s);
    GroupIsSmall(s, p, v);
    KeptBits(g, s, p);
    GroupShifted(g, s, p);
    OrIsAddition(v, Kept(g, s), s);
    OrInOf(v, b, s, Kept(g, s) * p, g * p, TurnedOver(g, s));
  }

  lemma GroupIsSmall(s: nat, p: nat, v: nat)
    requires GroupPlace(s, p) && v < p
    ensures v < TWO32
  {
  }

  lemma OrInOf(v: Word, b: Byte, s: nat, kept: nat, shifted: nat, turns: nat)
    requires v + kept < TWO32 && ToUint32(Shl(b % 128, s)) == kept && Bitwise(Or, v, kept) == v + kept
    requires shifted == kept + TWO32 * turns
    ensures OrIn(v, b, s) == ToInt32(v + shifted)
  {
    hide Shl, ToUint32, ToInt32, Bits, Bitwise;
    SignedOr(v, Shl(b % 128, s), v + kept);
    SignedTurn(v + kept, turns);
  }

  lemma SignedTurn(a: nat, turns: nat)
    ensures ToInt32(a + TWO32 * turns) == ToInt32(a)
  {
    SameRemainder(a, turns);
  }

  lemma SignedOr(a: Word, b: int, sum: Word)
    requires Bitwise(Or, a, ToUint32(b)) == sum
    ensures Bits(Or, a, b) == ToInt32(sum)
  {
    hide Bitwise;
    WordReading(a);
  }

  lemma GroupStays(v: nat, g: nat, s: nat)
    requires v < Pow2(s) && g < 128 && GroupPlace(s, Pow2(s)) && s < 28
    ensures var v' := v + g * Pow2(s);
            v' < Pow2(s + 7) && GroupPlace(s + 7, Pow2(s + 7)) && ToInt32(v') == v'
  {
    GroupPowers();
    ProductMonotone(g, 127, Pow2(s));
  }

  lemma {:induction false} LengthIsSigned32From(buf: seq<Byte>, i: int, v: nat, s: nat)
    requires v < Pow2(s) && GroupPlace(s, Pow2(s))
    requires VarintAt(buf, i).Got? && 7 * (VarintAt(buf, i).next - i) <= 35 - s
    ensures LengthAt(buf, i, v, s)
            == Got(ToInt32(v + VarintAt(buf, i).value * Pow2(s)), VarintAt(buf, i).next)
    decreases |buf| - i
  {
    hide Pow2, OrIn, ToInt32, GroupPlace, At;
    var b := At(buf, i);
    OrInAddsGroup(v, b, s);
    if b < 128 {
      assert b % 128 == b;
    } else {
      assert b % 128 == b - 128;
      var rest := VarintAt(buf, i + 1);
      assert rest.next > i + 1;
      GroupContinues(v, s, b - 128, rest);
      GroupStays(v, b - 128, s);
      LengthIsSigned32From(buf, i + 1, v + (b - 128) * Pow2(s), s + 7);
    }
  }

  /** A length of at most five bytes is read as its varint, wrapped to a signed 32-bit number. */
  lemma LengthIsSigned32(buf: seq<Byte>, i: int)
    requires VarintAt(buf, i).Got? && VarintAt(buf, i).next <= i + 5
    ensures LengthAt(buf, i, 0, 0) == Got(ToInt32(VarintAt(buf, i).value), VarintAt(buf, i).next)
  {
    LengthIsSigned32From(buf, i, 0, 0);
  }

  lemma {:induction false} LengthTruncated(buf: seq<Byte>, i: int, len: int, s: nat)
    requires VarintAt(buf, i).Truncated?
    ensures LengthAt(buf, i, len, s).Truncated?
    decreases |buf| - i
  {
    if i < |buf| {
      LengthTruncated(buf, i + 1, OrIn(len, At(buf, i), s), s + 7);
    }
  }

  // ---- when a length is read as it was written ----

  lemma {:induction false} OrNothing(x: nat)
    ensures Bitwise(Or, x, 0) == x
  {
    if x > 0 {
      OrNothing(x / 2);
    }
  }

  /** A signed 32-bit number. */
  predicate IsInt32(x: int) {
    -TWO31 <= x < TWO31
  }

  lemma OrInIsInt32(len: int, b: Byte, s: nat)
    ensures IsInt32(OrIn(len, b, s))
  {
    hide WordOp, ToUint32, Shl;
  }

  lemma SignedAgain(len: int)
    requires IsInt32(len)
    ensures ToInt32(ToUint32(len)) == len
  {
  }

  lemma ShlZero(s: nat)
    ensures Shl(0, s) == 0 && ToUint32(0) == 0
  {
    ShiftedZero(s % 32);
    hide ShiftLeft;
  }

  /** A zero group leaves the accumulator alone, wherever the shift wraps to. */
  lemma OrInZeroGroup(len: int, b: Byte, s: nat)
    requires IsInt32(len) && b % 128 == 0
    ensures OrIn(len, b, s) == len
  {
    hide Bitwise, Shl, ToUint32, ToInt32, IsInt32;
    ShlZero(s);
    OrNothing(ToUint32(len));
    SignedAgain(len);
  }

  lemma {:induction false} ShiftedZero(n: nat)
    ensures ShiftLeft(0, n) == 0
  {
    if n > 0 {
      ShiftedZero(n - 1);
    }
  }

  lemma {:induction false} ZeroTail(buf: seq<Byte>, i: int, len: int, s: nat)
    requires IsInt32(len) && VarintAt(buf, i).Got? && VarintAt(buf, i).value == 0
    ensures LengthAt(buf, i, len, s) == Got(len, VarintAt(buf, i).next)
    decreases |buf| - i
  {
    hide OrIn;
    OrInZeroGroup(len, At(buf, i), s);
    if At(buf, i) >= 128 {
      ZeroTail(buf, i + 1, len, s + 7);
    }
  }

  lemma {:induction false} SmallLengthFrom(buf: seq<Byte>, i: int, v: nat, s: nat)
    requires v < Pow2(s) && GroupPlace(s, Pow2(s)) && VarintAt(buf, i).Got?
    requires v + VarintAt(buf, i).value * Pow2(s) < TWO31
    ensures LengthAt(buf, i, v, s) == Got(v + VarintAt(buf, i).value * Pow2(s), VarintAt(buf, i).next)
    decreases |buf| - i
  {
    hide Pow2, OrIn, ToInt32, GroupPlace, At;
    var b := At(buf, i);
    OrInAddsGroup(v, b, s);
    if b < 128 {
      assert b % 128 == b;
      SmallIsSigned(v + b * Pow2(s));
    } else {
      assert b % 128 == b - 128;
      var rest := VarintAt(buf, i + 1);
      GroupContinues(v, s, b - 128, rest);
      var v' := v + (b - 128) * Pow2(s);
      assert v + VarintAt(buf, i).value * Pow2(s) == v' + rest.value * Pow2(s + 7);
      ProductMonotone(0, rest.value, Pow2(s + 7));
      ProductMonotone(0, b - 128, Pow2(s));
      SmallIsSigned(v');
      if s < 28 {
        GroupStays(v, b - 128, s);
        SmallLengthFrom(buf, i + 1, v', s + 7);
      } else {
        NoSixthGroup(rest.value, s);
        ZeroTail(buf, i + 1, v', s + 7);
      }
    }
  }

  lemma SmallIsSigned(n: nat)
    requires n < TWO31
    ensures ToInt32(n) == n
  {
  }

  lemma NoSixthGroup(x: nat, s: nat)
    requires GroupPlace(s, Pow2(s)) && s >= 28 && x * Pow2(s + 7) < TWO31
    ensures x == 0
  {
    SevenMore(s);
    assert Pow2(s + 7) == 0x8_0000_0000;
    if x > 0 {
      ProductMonotone(1, x, Pow2(s + 7));
    }
  }

  lemma {:induction false} LengthEndsWithVarint(buf: seq<Byte>, i: int, len: int, s: nat)
    requires VarintAt(buf, i).Got?
    ensures var r := LengthAt(buf, i, len, s); r.Got? && r.next == VarintAt(buf, i).next && IsInt32(r.value)
    decreases |buf| - i
  {
    OrInIsInt32(len, At(buf, i), s);
    hide OrIn;
    if At(buf, i) >= 128 {
      LengthEndsWithVarint(buf, i + 1, OrIn(len, At(buf, i), s), s + 7);
    }
  }

  /** The 32-bit loop reads a length as it was written exactly when that is below 2^31, however
      many bytes it was written in. */
  lemma LengthExactBelow2To31(buf: seq<Byte>, i: int)
    requires VarintAt(buf, i).Got?
    ensures LengthAt(buf, i, 0, 0) == VarintAt(buf, i) <==> VarintAt(buf, i).value < TWO31
  {
    hide VarintAt, LengthAt;
    LengthEndsWithVarint(buf, i, 0, 0);
    if VarintAt(buf, i).value < TWO31 {
      SmallLengthFrom(buf, i, 0, 0);
    }
  }

  // ---- the encoding ----

  function Varint(v: nat): seq<Byte> {
    if v < 128 then [v] else [128 + v % 128] + Varint(v / 128)
  }

  // ---- what sits in a buffer ----

  predicate IsVarint(s: seq<Byte>) {
    s != [] && if s[0] < 128 then |s| == 1 else IsVarint(s[1..])
  }

  function Value(s: seq<Byte>): nat
    requires IsVarint(s)
  {
    if s[0] < 128 then s[0] else s[0] - 128 + 128 * Value(s[1..])
  }

  lemma {:induction false} VarintRoundTrip(v: nat)
    ensures IsVarint(Varint(v)) && Value(Varint(v)) == v
  {
    if v >= 128 {
      VarintRoundTrip(v / 128);
      assert Varint(v)[1..] == Varint(v / 128);
    }
  }

  predicate Sits(buf: seq<Byte>, i: int, s: seq<Byte>) {
    0 <= i && i + |s| <= |buf| && buf[i..i + |s|] == s
  }

  /** The buffer ends inside `s`, which starts at `i`. */
  predicate CutIn(buf: seq<Byte>, i: int, s: seq<Byte>) {
    0 <= i <= |buf| && |buf| < i + |s| && buf[i..] == s[..|buf| - i]
  }

  lemma SitsSplit(buf: seq<Byte>, i: int, a: seq<Byte>, b: seq<Byte>)
    requires Sits(buf, i, a + b)
    ensures Sits(buf, i, a) && Sits(buf, i + |a|, b)
  {
    assert buf[i..i + |a|] == buf[i..i + |a + b|][..|a|];
    assert buf[i + |a|..i + |a + b|] == buf[i..i + |a + b|][|a|..];
  }

  lemma CutSplit(buf: seq<Byte>, i: int, a: seq<Byte>, b: seq<Byte>)
    requires CutIn(buf, i, a + b)
    ensures CutIn(buf, i, a) || (Sits(buf, i, a) && CutIn(buf, i + |a|, b))
  {
    if |buf| < i + |a| {
      assert (a + b)[..|buf| - i] == a[..|buf| - i];
    } else {
      assert buf[i..i + |a|] == buf[i..][..|a|];
      assert buf[i + |a|..] == buf[i..][|a|..];
    }
  }

  lemma {:induction false} VarintSits(buf: seq<Byte>, i: int, s: seq<Byte>)
    requires Sits(buf, i, s) && IsVarint(s)
    ensures VarintAt(buf, i) == Got(Value(s), i + |s|)
    decreases |s|
  {
    assert At(buf, i) == buf[i..i + |s|][0];
    if s[0] >= 128 {
      assert s == [s[0]] + s[1..];
      SitsSplit(buf, i, [s[0]], s[1..]);
      VarintSits(buf, i + 1, s[1..]);
    }
  }

  lemma {:induction false} VarintCut(buf: seq<Byte>, i: int, s: seq<Byte>)
    requires CutIn(buf, i, s) && IsVarint(s)
    ensures VarintAt(buf, i).Truncated?
    decreases |s|
  {
    if i < |buf| {
      assert At(buf, i) == buf[i..][0];
      assert s == [s[0]] + s[1..];
      CutSplit(buf, i, [s[0]], s[1..]);
      if s[0] >= 128 {
        VarintCut(buf, i + 1, s[1..]);
      }
    }
  }
}
